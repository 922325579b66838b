/**
  The per-channel receive queue: it buffers delivered messages, parks at most one receive, and
  fails receives once it is closed and drained.  A completion handler is a number here; calling
  it appends an entry to the log.
 */
module ReceiveQueue {
  import opened Packets

  datatype Pending = Pending(handler: nat, capacity: nat)

  /** A handler call: the buffer's capacity, and the bytes copied into it or the error. */
  datatype Completion = Completion(handler: nat, capacity: nat, result: Result<Payload>)

  datatype Queue = Queue(
    queued: seq<Payload>, pending: Option<Pending>, closed: bool, reason: Error, log: seq<Completion>)

  const EMPTY := Queue([], None, false, ChannelClosed, [])

  /** What fits of a message in a buffer. */
  function Cut(payload: Payload, capacity: nat): Payload {
    if |payload| <= capacity then payload else payload[..capacity]
  }

  function Fire(q: Queue, handler: nat, capacity: nat, result: Result<Payload>): Queue {
    q.(log := q.log + [Completion(handler, capacity, result)])
  }

  function Receive(q: Queue, handler: nat, capacity: nat): Queue {
    if q.queued == [] && q.closed then
      Fire(q, handler, capacity, Err(q.reason))
    else if q.queued != [] then
      Fire(q.(queued := q.queued[1..]), handler, capacity, Ok(Cut(q.queued[0], capacity)))
    else if q.pending.Some? then
      Fire(q, handler, capacity, Err(ChannelClosed))
    else
      q.(pending := Some(Pending(handler, capacity)))
  }

  function Deliver(q: Queue, payload: Payload): Queue {
    match q.pending
    case None => q.(queued := q.queued + [payload])
    case Some(p) => Fire(q.(pending := None), p.handler, p.capacity, Ok(Cut(payload, p.capacity)))
  }

  function Close(q: Queue, reason: Error): Queue {
    var c := q.(closed := true, reason := reason);
    match q.pending
    case None => c
    case Some(p) => Fire(c.(pending := None), p.handler, p.capacity, Err(reason))
  }

  function DeliverAll(q: Queue, payloads: seq<Payload>): Queue {
    if payloads == [] then q
    else Deliver(DeliverAll(q, payloads[..|payloads| - 1]), payloads[|payloads| - 1])
  }

  lemma DeliverAllOfSnoc(q: Queue, payloads: seq<Payload>, payload: Payload)
    ensures DeliverAll(q, payloads + [payload]) == Deliver(DeliverAll(q, payloads), payload)
  {
    assert (payloads + [payload])[..|payloads|] == payloads;
  }

  class RecvQueue {
    var queuedMessages: seq<Payload>
    var pendingRecv: Option<Pending>
    var closed: bool
    var closeReason: Error
    var completions: seq<Completion>

    ghost function View(): Queue
      reads this
    {
      Queue(queuedMessages, pendingRecv, closed, closeReason, completions)
    }

    constructor ()
      ensures View() == EMPTY
    {
      queuedMessages, pendingRecv, closed, closeReason, completions := [], None, false, ChannelClosed, [];
    }

    method CompleteRecv(recv: Pending, message: Payload)
      modifies this`completions
      ensures completions == old(completions) +
                             [Completion(recv.handler, recv.capacity, Ok(Cut(message, recv.capacity)))]
    {
      var size := if |message| < recv.capacity then |message| else recv.capacity;
      completions := completions + [Completion(recv.handler, recv.capacity, Ok(message[..size]))];
      assert message[..|message|] == message;
    }

    method AsyncRecv(handler: nat, capacity: nat)
      modifies this
      ensures View() == Receive(old(View()), handler, capacity)
    {
      if queuedMessages == [] && closed {
        completions := completions + [Completion(handler, capacity, Err(closeReason))];
      } else if queuedMessages != [] {
        var message := queuedMessages[0];
        queuedMessages := queuedMessages[1..];
        CompleteRecv(Pending(handler, capacity), message);
      } else if pendingRecv.Some? {
        completions := completions + [Completion(handler, capacity, Err(ChannelClosed))];
      } else {
        pendingRecv := Some(Pending(handler, capacity));
      }
    }

    method DeliverMessage(payload: Payload)
      modifies this
      ensures View() == Deliver(old(View()), payload)
    {
      if pendingRecv.None? {
        queuedMessages := queuedMessages + [payload];
        return;
      }
      var recv := pendingRecv.value;
      pendingRecv := None;
      CompleteRecv(recv, payload);
    }

    method CloseQueue(reason: Error)
      modifies this
      ensures View() == Close(old(View()), reason)
    {
      closed := true;
      closeReason := reason;
      if pendingRecv.Some? {
        var recv := pendingRecv.value;
        pendingRecv := None;
        completions := completions + [Completion(recv.handler, recv.capacity, Err(reason))];
      }
    }
  }

  // ----- Accounting -----

  /** The completions that carried a message, in order. */
  function Served(log: seq<Completion>): seq<Completion> {
    if log == [] then []
    else
      var last := log[|log| - 1];
      Served(log[..|log| - 1]) + if last.result.Ok? then [last] else []
  }

  /** How often a handler was called. */
  function Calls(log: seq<Completion>, handler: nat): nat {
    if log == [] then 0
    else Calls(log[..|log| - 1], handler) + if log[|log| - 1].handler == handler then 1 else 0
  }

  /** Messages: those served, each cut to its buffer, and then those queued, are exactly those delivered. */
  ghost predicate Conserves(q: Queue, delivered: seq<Payload>) {
    var served := Served(q.log);
    && |served| <= |delivered|
    && q.queued == delivered[|served|..]
    && forall i :: 0 <= i < |served| ==> served[i].result == Ok(Cut(delivered[i], served[i].capacity))
  }

  /** Handlers: of the `issued` receives every one was answered exactly once, except the parked one. */
  ghost predicate Answers(q: Queue, issued: nat) {
    && (q.pending.Some? ==> q.pending.value.handler < issued)
    && forall h: nat :: Calls(q.log, h) ==
                        if h < issued && !(q.pending.Some? && q.pending.value.handler == h) then 1 else 0
  }

  ghost predicate Consistent(q: Queue) {
    && (q.pending.Some? ==> q.queued == [] && !q.closed)
  }

  lemma FireServed(q: Queue, handler: nat, capacity: nat, result: Result<Payload>)
    ensures var log := Fire(q, handler, capacity, result).log;
            && Served(log) == Served(q.log) + (if result.Ok? then [Completion(handler, capacity, result)] else [])
            && forall h: nat :: Calls(log, h) == Calls(q.log, h) + if h == handler then 1 else 0
  {
    var log := Fire(q, handler, capacity, result).log;
    assert log[..|log| - 1] == q.log;
  }

  lemma ReceiveKeeps(q: Queue, capacity: nat, issued: nat, delivered: seq<Payload>)
    requires Conserves(q, delivered) && Answers(q, issued) && Consistent(q)
    ensures var r := Receive(q, issued, capacity);
            Conserves(r, delivered) && Answers(r, issued + 1) && Consistent(r)
  {
    var result := if q.queued == [] && q.closed then Err(q.reason)
                  else if q.queued != [] then Ok(Cut(q.queued[0], capacity)) else Err(ChannelClosed);
    FireServed(q, issued, capacity, result);
  }

  lemma DeliverKeeps(q: Queue, payload: Payload, issued: nat, delivered: seq<Payload>)
    requires Conserves(q, delivered) && Answers(q, issued) && Consistent(q)
    ensures var r := Deliver(q, payload);
            Conserves(r, delivered + [payload]) && Answers(r, issued) && Consistent(r)
  {
    if q.pending.Some? {
      var p := q.pending.value;
      FireServed(q, p.handler, p.capacity, Ok(Cut(payload, p.capacity)));
    }
  }

  lemma CloseKeeps(q: Queue, reason: Error, issued: nat, delivered: seq<Payload>)
    requires Conserves(q, delivered) && Answers(q, issued) && Consistent(q)
    ensures var r := Close(q, reason);
            Conserves(r, delivered) && Answers(r, issued) && Consistent(r)
  {
    if q.pending.Some? {
      var p := q.pending.value;
      FireServed(q, p.handler, p.capacity, Err(reason));
    }
  }

  // ----- Whole runs -----

  datatype Op = OpReceive(capacity: nat) | OpDeliver(payload: Payload) | OpClose(reason: Error)

  /** Receives issued so far; the next receive uses this number as its handler. */
  function Issued(ops: seq<Op>): nat {
    if ops == [] then 0
    else Issued(ops[..|ops| - 1]) + if ops[|ops| - 1].OpReceive? then 1 else 0
  }

  function Delivered(ops: seq<Op>): seq<Payload> {
    if ops == [] then []
    else
      Delivered(ops[..|ops| - 1]) +
      match ops[|ops| - 1] case OpDeliver(p) => [p] case _ => []
  }

  function Apply(q: Queue, issued: nat, op: Op): Queue {
    match op
    case OpReceive(capacity) => Receive(q, issued, capacity)
    case OpDeliver(payload) => Deliver(q, payload)
    case OpClose(reason) => Close(q, reason)
  }

  function Run(ops: seq<Op>): Queue {
    if ops == [] then EMPTY
    else
      var before := ops[..|ops| - 1];
      Apply(Run(before), Issued(before), ops[|ops| - 1])
  }

  /**
    In every interleaving of receives, deliveries and closes: the messages delivered are those
    completed (each cut to its buffer) followed by those still queued, in order; every issued
    receive has been answered exactly once, except the parked one; a parked receive means an empty
    queue that is not closed.
   */
  lemma {:induction false} RunConserves(ops: seq<Op>)
    ensures Conserves(Run(ops), Delivered(ops)) && Answers(Run(ops), Issued(ops)) && Consistent(Run(ops))
  {
    if ops != [] {
      var before := ops[..|ops| - 1];
      RunConserves(before);
      match ops[|ops| - 1] {
        case OpReceive(capacity) => ReceiveKeeps(Run(before), capacity, Issued(before), Delivered(before));
        case OpDeliver(payload) => DeliverKeeps(Run(before), payload, Issued(before), Delivered(before));
        case OpClose(reason) => CloseKeeps(Run(before), reason, Issued(before), Delivered(before));
      }
    }
  }

  /** Once closed, every handler ever issued has been called, and called once. */
  lemma ClosedAnswersEveryReceive(ops: seq<Op>, handler: nat)
    requires Run(ops).closed
    ensures Calls(Run(ops).log, handler) == if handler < Issued(ops) then 1 else 0
  {
    RunConserves(ops);
  }

  /** What a buffer gets is the front of the message, as much of it as fits. */
  lemma CutIsFront(payload: Payload, capacity: nat)
    ensures Cut(payload, capacity) <= payload
    ensures |Cut(payload, capacity)| == if |payload| < capacity then |payload| else capacity
  {
  }

  // ----- What fails, and how -----

  /** The reason of the last close, if there was one. */
  function LastReason(ops: seq<Op>): Option<Error> {
    if ops == [] then None
    else
      var last := ops[|ops| - 1];
      if last.OpClose? then Some(last.reason) else LastReason(ops[..|ops| - 1])
  }

  lemma {:induction false} ClosedIffCloseOp(ops: seq<Op>)
    ensures Run(ops).closed <==> LastReason(ops).Some?
    ensures Run(ops).closed ==> LastReason(ops) == Some(Run(ops).reason)
  {
    if ops != [] { ClosedIffCloseOp(ops[..|ops| - 1]); }
  }

  /** The answer to a receive issued after these operations, if it is answered at once. */
  ghost predicate AnsweredAtOnce(ops: seq<Op>, capacity: nat, result: Result<Payload>) {
    Run(ops + [OpReceive(capacity)]).log == Run(ops).log + [Completion(Issued(ops), capacity, result)]
  }

  /**
    After any operations: a receive gets the first message nobody has got, or else fails with the reason of
    the last close, or else with `ChannelClosed` if another receive is parked, or else is parked itself.
   */
  lemma ReceiveAnswers(ops: seq<Op>, capacity: nat)
    ensures var q := Run(ops);
            var served, delivered := |Served(q.log)|, Delivered(ops);
            if served < |delivered| then AnsweredAtOnce(ops, capacity, Ok(Cut(delivered[served], capacity)))
            else if LastReason(ops).Some? then AnsweredAtOnce(ops, capacity, Err(LastReason(ops).value))
            else if q.pending.Some? then AnsweredAtOnce(ops, capacity, Err(ChannelClosed))
            else Run(ops + [OpReceive(capacity)]) == q.(pending := Some(Pending(Issued(ops), capacity)))
  {
    RunConserves(ops);
    ClosedIffCloseOp(ops);
    assert (ops + [OpReceive(capacity)])[..|ops|] == ops;
  }

  /** A close fails the parked receive with its reason, and nobody else. */
  lemma CloseAnswers(ops: seq<Op>, reason: Error)
    ensures var q, r := Run(ops), Run(ops + [OpClose(reason)]);
            && r.closed && r.pending.None? && r.queued == q.queued
            && r.log == q.log + match q.pending
                                case None => []
                                case Some(p) => [Completion(p.handler, p.capacity, Err(reason))]
  {
    assert (ops + [OpClose(reason)])[..|ops|] == ops;
  }

  // ----- While open, with one receive at a time -----

  /** Never closed, and no receive is issued while another is parked. */
  predicate OneAtATime(ops: seq<Op>) {
    forall i :: 0 <= i < |ops| ==> !ops[i].OpClose? && (ops[i].OpReceive? ==> Run(ops[..i]).pending.None?)
  }

  /** The buffer sizes of the receives, in order. */
  function Capacities(ops: seq<Op>): (capacities: seq<nat>)
    ensures |capacities| == Issued(ops)
  {
    if ops == [] then []
    else Capacities(ops[..|ops| - 1]) + match ops[|ops| - 1] case OpReceive(capacity) => [capacity] case _ => []
  }

  /** The first so many receives got the first so many messages, each its own. */
  ghost predicate Matched(log: seq<Completion>, capacities: seq<nat>, delivered: seq<Payload>) {
    && |log| <= |capacities| && |log| <= |delivered|
    && forall k :: 0 <= k < |log| ==> log[k] == Completion(k, capacities[k], Ok(Cut(delivered[k], capacities[k])))
  }

  /** As many as possible are matched; the rest is queued, or is the one receive parked. */
  ghost predicate FullyMatched(q: Queue, capacities: seq<nat>, delivered: seq<Payload>) {
    && !q.closed
    && Matched(q.log, capacities, delivered)
    && q.queued == delivered[|q.log|..]
    && if q.pending.None? then |q.log| == |capacities|
       else |capacities| == |q.log| + 1 && q.queued == [] && q.pending.value == Pending(|q.log|, capacities[|q.log|])
  }

  lemma OneMoreMatched(q: Queue, capacities: seq<nat>, delivered: seq<Payload>, op: Op)
    requires FullyMatched(q, capacities, delivered) && !op.OpClose? && (op.OpReceive? ==> q.pending.None?)
    ensures var r := Apply(q, |capacities|, op);
            FullyMatched(r, if op.OpReceive? then capacities + [op.capacity] else capacities,
                         if op.OpDeliver? then delivered + [op.payload] else delivered)
  {
    var n := |q.log|;
    if op.OpDeliver? {
      assert (delivered + [op.payload])[n..] == delivered[n..] + [op.payload];
      assert q.pending.Some? ==> n == |delivered|;
    } else if q.queued != [] {
      assert delivered[n..][0] == delivered[n] && delivered[n..][1..] == delivered[n + 1..];
    }
  }

  /**
    As long as the queue is open and receives are issued one at a time, none ever fails: the `k`-th
    receive is answered with the `k`-th message delivered, as soon as there is one.
   */
  lemma {:induction false} ReceivesMatchMessages(ops: seq<Op>)
    requires OneAtATime(ops)
    ensures FullyMatched(Run(ops), Capacities(ops), Delivered(ops))
  {
    if ops != [] {
      var n := |ops| - 1;
      var before := ops[..n];
      assert forall i :: 0 <= i < n ==> before[i] == ops[i] && before[..i] == ops[..i];
      ReceivesMatchMessages(before);
      OneMoreMatched(Run(before), Capacities(before), Delivered(before), ops[n]);
    }
  }

  // ----- Draining after close -----

  function ReceiveEach(q: Queue, first: nat, capacities: seq<nat>): Queue {
    if capacities == [] then q
    else
      var n := |capacities| - 1;
      Receive(ReceiveEach(q, first, capacities[..n]), first + n, capacities[n])
  }

  /** The answer to the `i`-th receive after the close. */
  function AnswerAfterClose(q: Queue, i: nat, capacity: nat): Result<Payload> {
    if i < |q.queued| then Ok(Cut(q.queued[i], capacity)) else Err(q.reason)
  }

  /** `r` is the closed queue `q` after receives with these capacities, numbered from `first` on. */
  ghost predicate AnsweredAfterClose(q: Queue, r: Queue, first: nat, capacities: seq<nat>) {
    && r.closed && r.pending.None? && r.reason == q.reason
    && r.queued == q.queued[if |capacities| < |q.queued| then |capacities| else |q.queued|..]
    && |r.log| == |q.log| + |capacities|
    && r.log[..|q.log|] == q.log
    && forall i :: 0 <= i < |capacities| ==>
         r.log[|q.log| + i] == Completion(first + i, capacities[i], AnswerAfterClose(q, i, capacities[i]))
  }

  lemma OneMoreAfterClose(q: Queue, r: Queue, first: nat, capacities: seq<nat>, capacity: nat)
    requires AnsweredAfterClose(q, r, first, capacities)
    ensures AnsweredAfterClose(q, Receive(r, first + |capacities|, capacity), first, capacities + [capacity])
  {
    var n := |capacities|;
    var t := Receive(r, first + n, capacity);
    assert t.log == r.log + [Completion(first + n, capacity, AnswerAfterClose(q, n, capacity))];
  }

  /** After a close, receives drain the buffered messages in order and only then see the reason. */
  lemma {:induction false} ClosedDrainsThenFails(q: Queue, first: nat, capacities: seq<nat>)
    requires q.closed && q.pending.None?
    ensures AnsweredAfterClose(q, ReceiveEach(q, first, capacities), first, capacities)
  {
    if capacities != [] {
      var n := |capacities| - 1;
      ClosedDrainsThenFails(q, first, capacities[..n]);
      OneMoreAfterClose(q, ReceiveEach(q, first, capacities[..n]), first, capacities[..n], capacities[n]);
      assert capacities == capacities[..n] + [capacities[n]];
    }
  }
}

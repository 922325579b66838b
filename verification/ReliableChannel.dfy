/**
  The reliable channel object: its operations work in place on the two slot arrays, and each is
  proved to take exactly the step that `ReliableSender` and `ReliableReceiver` specify.
 */
module ReliableChannel {
  import opened Serial
  import opened Words
  import opened Packets
  import opened Slots
  import opened AckTracker
  import opened ReliableSender
  import Receiver = ReliableReceiver
  import Queue = ReceiveQueue
  import Codec

  /** `ec` is the first error among the first `n` outcomes, or none if there is none. */
  ghost predicate IsFirstError(outcome: nat -> Option<Error>, n: nat, ec: Option<Error>) {
    if ec.None? then forall k: nat :: k < n ==> outcome(k).None?
    else exists k: nat :: k < n && outcome(k) == ec && forall j: nat :: j < k ==> outcome(j).None?
  }

  class ReliableChannel {
    const id: Byte
    const ordered: bool
    const sendWindow: nat
    const retxTimeout: nat
    const sentPackets: array<Option<SentPacket>>
    const receiveBuffer: array<Option<Receiver.Buffered>>
    const recvAckTracker: ReceiveAckTracker
    const recvQueue: Queue.RecvQueue
    var nextSeq: Seq16
    var expectedRecvSeq: Seq16
    var inFlightCount: nat
    var packetsLost: nat
    var packetsRecv: nat
    /** Frames handed to the socket so far. */
    var wire: seq<seq<Byte>>

    ghost function SenderView(): Sender
      reads this, sentPackets
    {
      Sender(sendWindow, retxTimeout, nextSeq, sentPackets[..], inFlightCount, packetsLost)
    }

    ghost function ReceiverView(): Receiver.Receiver
      reads this, receiveBuffer, recvAckTracker
    {
      Receiver.Receiver(sendWindow, expectedRecvSeq, receiveBuffer[..], recvAckTracker.View())
    }

    ghost predicate Valid()
      reads this, sentPackets, receiveBuffer
    {
      && 1 <= sendWindow <= MAX_WINDOW
      && sentPackets.Length == sendWindow == receiveBuffer.Length
      && sentPackets as object != receiveBuffer as object
      && Accounted(SenderView())
    }

    constructor (id: Byte, ordered: bool, configuredWindow: Seq16, retxTimeoutMs: nat)
      ensures Valid() && fresh(sentPackets) && fresh(receiveBuffer) && fresh(recvAckTracker) && fresh(recvQueue)
      ensures this.id == id && this.ordered == ordered
      ensures SenderView() ==
              Init(NormalizeWindow(configuredWindow), if retxTimeoutMs == 0 then 200 else retxTimeoutMs)
      ensures ReceiverView() == Receiver.Init(NormalizeWindow(configuredWindow))
      ensures recvQueue.View() == Queue.EMPTY && wire == [] && packetsRecv == 0
    {
      var w := NormalizeWindow(configuredWindow);
      this.id, this.ordered := id, ordered;
      sendWindow := w;
      retxTimeout := if retxTimeoutMs == 0 then 200 else retxTimeoutMs;
      var sent := new Option<SentPacket>[w](_ => None);
      var buffer := new Option<Receiver.Buffered>[w](_ => None);
      sentPackets, receiveBuffer := sent, buffer;
      recvAckTracker := new ReceiveAckTracker();
      recvQueue := new Queue.RecvQueue();
      nextSeq, expectedRecvSeq, inFlightCount, packetsLost, packetsRecv, wire := 0, 0, 0, 0, 0, [];
      new;
      assert sentPackets[..] == seq(w, _ => None);
      assert receiveBuffer[..] == seq<Option<Receiver.Buffered>>(w, _ => None);
      InitAccounted(w, retxTimeout);
    }

    // ----- Sending -----

    method StoreSentPacket(sequence: Seq16, frame: seq<Byte>, now: int) returns (stored: bool)
      requires Valid()
      modifies this`inFlightCount, sentPackets
      ensures Valid()
      ensures stored <==> old(sentPackets[sequence % sendWindow]).None?
      ensures sentPackets[..] ==
              if stored
              then old(sentPackets[..])[sequence % sendWindow :=
                                        Some(SentPacket(sequence, frame, now, now + retxTimeout, 0))]
              else old(sentPackets[..])
      ensures inFlightCount == old(inFlightCount) + if stored then 1 else 0
    {
      var i := sequence % sendWindow;
      if sentPackets[i].Some? {
        return false;
      }
      var sent := Some(SentPacket(sequence, frame, now, now + retxTimeout, 0));
      CountOfUpdate(sentPackets[..], i, sent);
      sentPackets[i] := sent;
      inFlightCount := inFlightCount + 1;
      return true;
    }

    /** A refused send reports its error at once; an accepted one reports later, see `OnSendCompleted`. */
    method AsyncSend(payload: Payload, congestionWindow: nat, encodes: bool, now: int)
      returns (outcome: SendOutcome)
      requires Valid()
      modifies this`nextSeq, this`inFlightCount, this`wire, sentPackets
      ensures Valid()
      ensures (SenderView(), outcome) ==
              Send(old(SenderView()), payload,
                   SendContext(congestionWindow, encodes, id, recvAckTracker.View(), now))
      ensures wire == old(wire) + if outcome.Accepted? then [outcome.frame] else []
      ensures outcome == Refused(SendWindowFull) && SenderView() == old(SenderView()) <==>
              old(inFlightCount) >= 1 && (old(inFlightCount) >= sendWindow || old(inFlightCount) >= congestionWindow)
    {
      RefusedByWindowIff(SenderView(), payload,
                         SendContext(congestionWindow, encodes, id, recvAckTracker.View(), now));
      if inFlightCount >= EffectiveWindow(sendWindow, congestionWindow) {
        return Refused(SendWindowFull);
      }
      var sequence := nextSeq;
      nextSeq := Succ(nextSeq);
      var packet := Packet(DATA, sequence, 0, 0, id, payload, 0);
      if recvAckTracker.hasReceived {
        packet := packet.(ack := recvAckTracker.latestSequence, ackBits := recvAckTracker.ackBits);
      }
      if !encodes {
        return Refused(BadPacket);
      }
      var frame := Codec.Frame(packet);
      var stored := StoreSentPacket(sequence, frame, now);
      if !stored {
        return Refused(SendWindowFull);
      }
      wire := wire + [frame];
      return Accepted(sequence, frame);
    }

    /** The completion of an accepted send. */
    method OnSendCompleted(sequence: Seq16, failed: bool)
      requires Valid()
      modifies this`inFlightCount, sentPackets
      ensures Valid()
      ensures SenderView() == if failed then Erase(old(SenderView()), sequence) else old(SenderView())
    {
      var i := sequence % sendWindow;
      if !failed || sentPackets[i].None? || sentPackets[i].value.sequenceNumber != sequence {
        return;
      }
      CountOfUpdate(sentPackets[..], i, None);
      sentPackets[i] := None;
      inFlightCount := inFlightCount - 1;
    }

    /** Resends the packet in one slot if its deadline has passed. */
    method TickSlot(i: nat, now: int)
      requires i < sentPackets.Length
      modifies this`packetsLost, this`wire, sentPackets
      ensures sentPackets[..] == old(sentPackets[..])[i := TickedSlot(old(sentPackets[i]), now, retxTimeout)]
      ensures wire == old(wire) + if IsDue(old(sentPackets[i]), now) then [old(sentPackets[i]).value.frame] else []
      ensures packetsLost == old(packetsLost) + if IsDue(old(sentPackets[i]), now) then 1 else 0
    {
      if sentPackets[i].None? || sentPackets[i].value.nextRetx > now {
        return;
      }
      var p := sentPackets[i].value;
      var backoffShift := if p.retxCount + 1 < 3 then p.retxCount + 1 else 3;
      p := p.(nextRetx := now + retxTimeout * Pow2(backoffShift), retxCount := p.retxCount + 1);
      assert Pow2(3) == 8;
      sentPackets[i] := Some(p);
      packetsLost := packetsLost + 1;
      wire := wire + [p.frame];
    }

    /** Goes over the slots in order. */
    method TickSlots(now: int)
      modifies this`packetsLost, this`wire, sentPackets
      ensures sentPackets[..] == TickedPrefix(old(sentPackets[..]), sentPackets.Length, now, retxTimeout)
      ensures wire == old(wire) + Due(old(sentPackets[..]), now)
      ensures packetsLost == old(packetsLost) + |Due(old(sentPackets[..]), now)|
    {
      ghost var slots := sentPackets[..];
      for i := 0 to sentPackets.Length
        invariant sentPackets[..] == TickedPrefix(slots, i, now, retxTimeout)
        invariant wire == old(wire) + Due(slots[..i], now)
        invariant packetsLost == old(packetsLost) + |Due(slots[..i], now)|
      {
        assert sentPackets[..][i] == slots[i];
        DueOfPrefix(slots, i, now);
        TickSlot(i, now);
      }
      assert slots[..sentPackets.Length] == slots;
    }

    method OnTick(now: int)
      requires Valid()
      modifies this`packetsLost, this`wire, sentPackets
      ensures Valid()
      ensures SenderView() == Tick(old(SenderView()), now)
      ensures wire == old(wire) + Due(old(sentPackets[..]), now)
    {
      TickSlots(now);
      TickAccounted(old(SenderView()), now);
    }

    /**
      Resends every packet in flight and changes nothing else.  `outcome(k)` is what the socket reports for
      the `k`-th of them; the caller's error code keeps the first error.
     */
    method Flush(outcome: nat -> Option<Error>, before: Option<Error>) returns (ec: Option<Error>)
      requires Valid()
      modifies this`wire
      ensures wire == old(wire) + InFlightFrames(sentPackets[..])
      ensures if before.Some? then ec == before else IsFirstError(outcome, inFlightCount, ec)
    {
      ec := before;
      ghost var slots := sentPackets[..];
      var sent := 0;
      for i := 0 to sentPackets.Length
        invariant wire == old(wire) + InFlightFrames(slots[..i])
        invariant sent == Count(slots[..i])
        invariant if before.Some? then ec == before else IsFirstError(outcome, sent, ec)
      {
        assert slots[..i + 1][..i] == slots[..i];
        if sentPackets[i].Some? {
          wire := wire + [sentPackets[i].value.frame];
          ec := if ec.None? then outcome(sent) else ec;
          sent := sent + 1;
        }
      }
      assert slots[..sentPackets.Length] == slots;
    }

    /** Frees one slot if the ACK covers its packet. */
    method AckSlot(i: nat, ack: Seq16, ackBits: U32)
      requires i < sentPackets.Length && inFlightCount == Count(sentPackets[..])
      modifies this`inFlightCount, sentPackets
      ensures sentPackets[..] == old(sentPackets[..])[i := AckedSlot(old(sentPackets[i]), ack, ackBits)]
      ensures inFlightCount == Count(sentPackets[..])
    {
      if sentPackets[i].Some? && IsAcknowledged(sentPackets[i].value.sequenceNumber, ack, ackBits) {
        CountOfUpdate(sentPackets[..], i, None);
        sentPackets[i] := None;
        inFlightCount := inFlightCount - 1;
      }
    }

    method ProcessAckPacket(ack: Seq16, ackBits: U32)
      requires Valid()
      modifies this`inFlightCount, sentPackets
      ensures Valid()
      ensures SenderView() == ProcessAck(old(SenderView()), ack, ackBits)
    {
      ghost var slots := sentPackets[..];
      for i := 0 to sentPackets.Length
        invariant sentPackets[..] == AckedPrefix(slots, i, ack, ackBits)
        invariant inFlightCount == Count(sentPackets[..])
      {
        AckSlot(i, ack, ackBits);
      }
      ProcessAckAccounted(old(SenderView()), ack, ackBits);
    }

    // ----- Receiving -----

    /** Delivers the packet expected next and empties its slot. */
    method TakeExpectedPacket()
      requires Valid() && Receiver.Holds(ReceiverView(), expectedRecvSeq)
      modifies this`expectedRecvSeq, this`packetsRecv, receiveBuffer, recvQueue
      ensures Valid() && ReceiverView() == Receiver.TakeExpected(old(ReceiverView()))
      ensures recvQueue.View() ==
              Queue.Deliver(old(recvQueue.View()), old(receiveBuffer[expectedRecvSeq % sendWindow]).value.payload)
      ensures packetsRecv == old(packetsRecv) + 1
    {
      var payload := receiveBuffer[expectedRecvSeq % sendWindow].value.payload;
      packetsRecv := packetsRecv + 1;
      recvQueue.DeliverMessage(payload);
      receiveBuffer[expectedRecvSeq % sendWindow] := None;
      expectedRecvSeq := Succ(expectedRecvSeq);
    }

    method DrainReadyPackets()
      requires Valid()
      modifies this`expectedRecvSeq, this`packetsRecv, receiveBuffer, recvQueue
      ensures Valid()
      ensures var (r, out) := Receiver.Drain(old(ReceiverView()));
              && ReceiverView() == r
              && recvQueue.View() == Queue.DeliverAll(old(recvQueue.View()), out)
              && packetsRecv == old(packetsRecv) + |out|
    {
      ghost var start := ReceiverView();
      ghost var out: seq<Payload> := [];
      while receiveBuffer[expectedRecvSeq % sendWindow].Some?
            && receiveBuffer[expectedRecvSeq % sendWindow].value.sequenceNumber == expectedRecvSeq
        invariant Valid()
        invariant Receiver.DrainsThrough(start, ReceiverView(), out)
        invariant recvQueue.View() == Queue.DeliverAll(old(recvQueue.View()), out)
        invariant packetsRecv == old(packetsRecv) + |out|
        decreases Count(receiveBuffer[..])
      {
        ghost var payload := receiveBuffer[expectedRecvSeq % sendWindow].value.payload;
        Receiver.DrainsThroughNext(start, ReceiverView(), out);
        TakeExpectedPacket();
        Queue.DeliverAllOfSnoc(old(recvQueue.View()), out, payload);
        out := out + [payload];
      }
      assert out + [] == out;
    }

    method ReceiveOrderedPacket(sequence: Seq16, payload: Payload)
      requires Valid()
      modifies this`expectedRecvSeq, this`packetsRecv, receiveBuffer, recvAckTracker, recvQueue
      ensures Valid()
      ensures var (r, out) := Receiver.ReceiveOrdered(old(ReceiverView()), sequence, payload);
              && ReceiverView() == r
              && recvQueue.View() == Queue.DeliverAll(old(recvQueue.View()), out)
              && packetsRecv == old(packetsRecv) + |out|
    {
      var delta := Delta(sequence, expectedRecvSeq);
      if !(delta < (if sendWindow < 1 then 1 else sendWindow) && delta < HALF) {
        return;
      }
      recvAckTracker.MarkReceived(sequence);
      var i := sequence % sendWindow;
      if receiveBuffer[i].Some? {
        return;
      }
      receiveBuffer[i] := Some(Receiver.Buffered(sequence, payload));
      DrainReadyPackets();
    }

    method ReceiveUnorderedPacket(sequence: Seq16, payload: Payload)
      requires Valid()
      modifies this`packetsRecv, recvAckTracker, recvQueue
      ensures Valid()
      ensures var (r, out) := Receiver.ReceiveUnordered(old(ReceiverView()), sequence, payload);
              && ReceiverView() == r
              && recvQueue.View() == Queue.DeliverAll(old(recvQueue.View()), out)
              && packetsRecv == old(packetsRecv) + |out|
    {
      if recvAckTracker.hasReceived && !IsNewerSequence(sequence, recvAckTracker.latestSequence) {
        var backDelta := Delta(recvAckTracker.latestSequence, sequence);
        if backDelta > HISTORY ||
           IsAcknowledged(sequence, recvAckTracker.latestSequence, recvAckTracker.ackBits) {
          return;
        }
      }
      recvAckTracker.MarkReceived(sequence);
      packetsRecv := packetsRecv + 1;
      assert [payload][..0] == [];
      recvQueue.DeliverMessage(payload);
    }

    /** A decoded packet: an ACK touches only the sending half, data only the receiving half. */
    method OnRecv(packet: Packet)
      requires Valid()
      modifies this, sentPackets, receiveBuffer, recvAckTracker, recvQueue
      ensures Valid() && wire == old(wire) && nextSeq == old(nextSeq)
      ensures SenderView() == if packet.kind == ACK
                              then ProcessAck(old(SenderView()), packet.ack, packet.ackBits)
                              else old(SenderView())
      ensures var (r, out) := if packet.kind == DATA
                              then Receiver.Receive(old(ReceiverView()), ordered, packet.sequence, packet.payload)
                              else (old(ReceiverView()), []);
              && ReceiverView() == r
              && recvQueue.View() == Queue.DeliverAll(old(recvQueue.View()), out)
              && packetsRecv == old(packetsRecv) + |out|
    {
      if packet.kind == ACK {
        ProcessAckPacket(packet.ack, packet.ackBits);
      } else if packet.kind == DATA {
        if ordered {
          ReceiveOrderedPacket(packet.sequence, packet.payload);
        } else {
          ReceiveUnorderedPacket(packet.sequence, packet.payload);
        }
      }
    }

    method BuildAck() returns (packet: Option<Packet>)
      ensures packet == Receiver.AckPacket(recvAckTracker.View(), id)
      ensures packet.Some? <==> recvAckTracker.hasReceived
      ensures packet.Some? ==>
                && packet.value.kind == 0x11 && packet.value.channel == id
                && packet.value.sequence == 0 && packet.value.payload == []
                && packet.value.ack == recvAckTracker.latestSequence && packet.value.ackBits == recvAckTracker.ackBits
    {
      if !recvAckTracker.hasReceived {
        return None;
      }
      return Some(Packet(ACK, 0, recvAckTracker.latestSequence, recvAckTracker.ackBits, id, [], 0));
    }

    method Close(reason: Error)
      modifies recvQueue
      ensures recvQueue.View() == Queue.Close(old(recvQueue.View()), reason)
    {
      recvQueue.CloseQueue(reason);
    }

    method AsyncRecv(handler: nat, capacity: nat)
      modifies recvQueue
      ensures recvQueue.View() == Queue.Receive(old(recvQueue.View()), handler, capacity)
    {
      recvQueue.AsyncRecv(handler, capacity);
    }
  }
}

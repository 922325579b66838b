# Verified model of the rude reliable-UDP engine

`rude` sends messages over UDP on channels: reliable ordered, reliable unordered, and unreliable
sequenced. This project models the logic of those channels and of the pieces around them, and proves
what they guarantee. `dafny verify dfyconfig.toml` checks everything.

The centre is one direction of a reliable channel as a two-party system (`Protocol.dfy`). Its steps are
a send, a late send failure, a retransmission tick, a flush, the arrival of a data datagram and the
arrival of an ACK. The network is the set of everything ever sent, so datagrams may be lost, repeated
and reordered without limit. The real state knows only 16-bit numbers; the proofs carry each packet's
unbounded absolute number beside it. Sixteen bits cannot tell a packet from the one 65536 numbers
later, so the arrival and failure steps have explicit freshness guards; a step whose guard fails does
nothing. `FreshnessNeeded.dfy` shows that every channel goes wrong without each of them, and gives the exact
limits: one turn of the counter for failure reports, a turn less the receive window for datagrams (half a
turn when unordered), and a turn less 33 for ACKs.

The main results:

- **Ordered delivery.** For every window, what is delivered is a prefix of what was accepted.
- **No silent loss, with its exact condition.** Over every channel and any two windows, nothing accepted
  is ever lost silently if and only if the channel is unordered, or its receive window divides 65536 and
  is below 32768 or faces a send window of one. Over the runs without failed sends the last condition
  falls away: 32768 is then as good as any divisor. Two further conditions are exact for the runs in which,
  besides, every packet encodes, and for those in which every number used was accepted. The losing run at
  32768 is an unlikely one, in which 98303 sends are reported failed although their frames arrive.
- **Stuck slots and blocked channels.** When a packet is never freed again, and the exact windows for which
  that can happen, or a send can be refused and yet use up its number.
- **The ACK summary, the ordered buffer, the unordered duplicate test** each agree with a plain set of
  everything received.
- **The wire format** is a bijection between packets and accepted byte strings, and any damage to one
  byte or two neighbouring bytes is detected.
- **Conservation and scheduling** for the sender's slots, the receive queue, the send guard, the
  session's teardown and the client handshake, over every interleaving.

## Layout

| files | content |
|---|---|
| `Serial`, `Words`, `Slots` | 16-bit serial arithmetic; 32-bit words digit by digit; counting occupied slots |
| `Packets`, `Codec`, `KnownAnswers`, `AckTracker`, `ReceiveQueue` | the packet format, with known answers, and the shared parts of a channel |
| `ReliableSender`, `ReliableReceiver`, `Retransmission` | the two halves of a reliable channel as values |
| `ReliableChannel` | the channel object, in place on its slot arrays, proved to take those steps |
| `OrderedReceiver`, `UnorderedReceiver` | the receivers against unbounded reference receivers |
| `Protocol`, `OrderedDelivery`, `Addressing`, `NoSilentLoss` | the two-party system and its safety theorems |
| `AckTops`, `Runs`, `Collisions` | what every state of it keeps, and building blocks for its runs |
| `WindowMustDivide`, `LargestWindow`, `LargestWindowSafe`, `HoleRuns`, `CleanRuns`, `ExactLoss` | the exact conditions for losing a message |
| `BlockedChannel`, `StuckSlot`, `FreshnessNeeded` | when a channel blocks, and what the freshness guards are for |
| `ReorderBuffer`, `AckedSet`, `SendGuard`, `UnreliableChannel` | the stand-alone parts |
| `Session`, `SessionRuns`, `Handshake` | lifecycles |

## Where the code differs from what one would expect

- A number is taken before two of the three refusals in `asyncSend`
  (src/rude/detail/channel/ReliableChannel.hpp:54-70). On an ordered channel such a refusal leaves a
  number that never arrives, and the receiver stops there for good. "Accepted" here means stored in a
  slot.
- The arrival is recorded for acknowledgement before the slot is looked at
  (src/rude/detail/channel/ReliableChannel.hpp:269-273). If the window does not divide 65536, two
  numbers of one window share a slot around the wrap and the second is acknowledged and dropped.
- The configuration allows windows up to 32768 (src/rude/session/ChannelConfig.hpp:46-48). At 32768 an
  arrival exactly 2^15 ahead is inside the window but ignored by the ACK summary, and a message can be
  lost, though only if sends are reported failed whose frames arrive.
- The ACK history covers 32 numbers (src/rude/detail/channel/ReliableChannel.hpp:288-290). If all ACKs of
  a longer burst are lost, its first packets are delivered but never freed.
- The ACK attached to data packets is never read by `onRecv`; only ACK packets free slots.
- A forward move of exactly 32 shifts a 32-bit value by 32
  (src/rude/detail/channel/ChannelCommon.hpp:142), which C++ leaves undefined. The model takes the
  intended result: all old bits are gone.
- The comment on the receive queue says that receives after a close complete at once with the reason
  (src/rude/detail/channel/ChannelCommon.hpp:73-78); the code first hands out the buffered messages,
  and the model follows the code.
- The comment in `AckedSet` says that the window slides when its lower half is consumed
  (src/rude/detail/AckedSet.hpp:39); the code slides on any mark in the upper half.
- `ReorderBuffer::drain` does not compare the stored number with the expected one, unlike the channel's
  own drain.
- The handshake sends at most ceil(timeout / retry) INITs, counting the first.

## Model

| member | source | states |
|---|---|---|
| `OrderedDelivery.DeliveredIsPrefixOfAccepted` | src/rude/detail/channel/ReliableChannel.hpp:44-133 | for every pair of windows and every run over a losing, duplicating, reordering network, across any number of 16-bit wraps: the payloads delivered are a prefix, in order, of the payloads accepted, and no number below the expected one was skipped |
| `NoSilentLoss.AcceptedIsNeverLost` | src/rude/detail/channel/ReliableChannel.hpp:223-277 | in every reachable state every accepted message is in a sender slot, was reported failed, or is with the peer: delivered, or on an ordered channel whose window is a power of two up to 16384 delivered or buffered under its own absolute number |
| `NoSilentLoss.AckFreesOnlyWhatPeerHas` | src/rude/detail/channel/ReliableChannel.hpp:223-246 | in every reachable state, a fresh ACK frees a slot only if the peer has that very packet, with that content |
| `NoSilentLoss.FreedIsReceived` | src/rude/detail/channel/ReliableChannel.hpp:223-246 | one ACK step: a slot it empties belongs to a number the peer has recorded |
| `NoSilentLoss.CurrentAckFreesIff` | src/rude/detail/channel/ReliableChannel.hpp:150-246 | in every reachable state, the ACK built now frees a fresh packet in flight if and only if the receiver has recorded it and it is at most 32 below the newest number recorded |
| `NoSilentLoss.UnorderedDeliversAtMostOnce` | src/rude/detail/channel/ReliableChannel.hpp:254-291 | unordered channel end to end: every delivery carries an accepted message, no number twice, and the delivered numbers are exactly those the ACK summary describes |
| `WindowMustDivide.SomeRunLosesAMessage` | src/rude/detail/channel/ReliableChannel.hpp:264-277 | false case, for every ordered receive window that does not divide 65536 and every send window: in some run an accepted message is in no slot, not reported failed and not with the peer |
| `WindowMustDivide.SomeFailureFreeRunLosesAMessage` | src/rude/detail/channel/ReliableChannel.hpp:59-63 | for every such pair of windows this happens also in a run in which no send is reported failed; the run needs a packet that the codec refuses |
| `WindowMustDivide.NothingLostIffWindowDivides` | src/rude/detail/channel/ReliableChannel.hpp:181-195 | ordered receive windows below 32768 and any send window: nothing is ever lost silently if and only if the receive window divides 65536 |
| `LargestWindow.LargestWindowLosesAMessage` | src/rude/detail/channel/ReliableChannel.hpp:264-277 | false case: with the receive window 32768 and any send window of two or more, some run leaves the ACK summary half a turn behind and one message is freed that never arrived; in that run 98303 sends are reported failed although their frames, flushed once more, arrive |
| `ExactLoss.NothingLostIff` | src/rude/detail/channel/ReliableChannel.hpp:179-195 | every channel and any two windows: nothing is ever lost silently if and only if the channel is unordered, or its receive window divides 65536 and is below 32768 or faces a send window of one |
| `ExactLoss.NothingLostWithoutFailureIff` | src/rude/detail/channel/ReliableChannel.hpp:179-195 | ordered channels with any two windows, over the runs in which no send is reported failed, though the codec may refuse packets: nothing is ever lost silently if and only if the receive window divides 65536, 32768 included |
| `ExactLoss.NothingLostEncodingIff` | src/rude/detail/channel/ReliableChannel.hpp:179-195 | every channel and any two windows, over the runs in which every packet encodes and no send is reported failed: nothing is ever lost silently if and only if the channel is unordered, or its receive window divides 65536, or its send window is one |
| `CleanRuns.NothingLostCleanlyIff` | src/rude/detail/channel/ReliableChannel.hpp:179-195 | ordered channels with any two windows, over the runs in which no send failed and every number used was accepted: nothing is ever lost silently if and only if, with q and r what the send window w and the receive window leave of 65536, r is 0, or w + q <= r, or r is above 32 and w + q is r + 1 or q = r + 1 with the receive window r + 2 |
| `HoleRuns.SomeUntroubledRunLosesAMessage` | src/rude/detail/channel/ReliableChannel.hpp:67-70 | the lossy half, for send windows of two or more: a number used up at a busy slot, then two numbers of one window meet at the wrap |
| `HoleRuns.OneByOneIsNeverLost` | src/rude/detail/channel/ReliableChannel.hpp:264-277 | with a send window of one, no failed send and no refused packet, nothing is lost behind any receive window |
| `CleanRuns.MeetingNeedsLossyWindows` | src/rude/detail/channel/ReliableChannel.hpp:193-195 | two numbers of a receive window share a slot, while all numbers since the missing one avoid its send slot, only for those windows, or with the missing number itself and too far for the ACK history |
| `ExactLoss.AckFreesOnlyHeld` | src/rude/detail/channel/ReliableChannel.hpp:223-246 | on every channel that never loses a message, a fresh ACK frees only packets the peer really has, with that content |
| `LargestWindowSafe.NeverLostWithoutFailure` | src/rude/detail/channel/ReliableChannel.hpp:264-296 | behind any receive window dividing 65536, a run without a reported failure loses nothing, whatever the send window |
| `LargestWindowSafe.SingleIsNeverLost` | src/rude/detail/channel/ReliableChannel.hpp:264-296 | with one packet in flight at a time nothing is lost behind any receive window dividing 65536 |
| `LargestWindowSafe.NeverTooFar` | src/rude/detail/channel/ReliableChannel.hpp:293-296 | in such a run with receive window 32768 no arrival inside the window is more than half a turn from the newest number of the ACK summary |
| `StuckSlot.StuckForever` | src/rude/detail/channel/ReliableChannel.hpp:288-290 | every channel: a packet in flight more than 32 below the summary's newest number, over every continuation that does not report it failed and delivers no ACK old enough for it, stays in its slot; no later number of that slot is accepted, and an ordered receiver never gets past one |
| `StuckSlot.LostAcksLeaveItStuck` | src/rude/detail/channel/ReliableChannel.hpp:150-161 | for every send window of at least 34, one burst of 34 messages whose ACKs are all lost reaches that state, without any failed send |
| `StuckSlot.StuckIff` | src/rude/detail/channel/ReliableChannel.hpp:193-195 | every channel and any two windows: some run reaches that state if and only if the send window w is at least two and, on ordered channels, w + 65536 % w + the receive window, less two if w divides the receive window less one and less one otherwise, exceeds 32 |
| `OrderedDelivery.NextKeepsSenderInv` | src/rude/detail/channel/ReliableChannel.hpp:44-111 | every step keeps the sender's invariant: slot accounting, a slot's packet decodes to the message accepted under its number, and everything on the network was accepted |
| `OrderedDelivery.NextKeepsOrderedInv` | src/rude/detail/channel/ReliableChannel.hpp:264-310 | every step keeps the ordered receiver's invariant: each buffered packet is the accepted message of its absolute number and what was delivered is numbers 0, 1, ... up to the expected one |
| `NoSilentLoss.NextKeepsInv` | src/rude/detail/channel/ReliableChannel.hpp:223-291 | every step keeps the joint invariant: the summary is exact, every ACK on the network is sound, every accepted number is in a slot, failed or recorded |
| `OrderedDelivery.FailureErasesItsPacket` | src/rude/detail/channel/ReliableChannel.hpp:324-333 | a failure callback less than one turn of the counter late empties at most the slot of its own packet |
| `OrderedDelivery.NumberUsedUpIff` | src/rude/detail/channel/ReliableChannel.hpp:47-70 | a send uses up a number without being accepted if and only if the window is open and its slot is taken or the codec refuses |
| `OrderedDelivery.BusySlotBlocksForever` | src/rude/detail/channel/ReliableChannel.hpp:54-70 | after a send refused with its number used up, at a busy slot or by the codec, whatever happens next, an ordered receiver never gets past that number |
| `BlockedChannel.BlockableIffWindowAtLeastTwo` | src/rude/detail/channel/ReliableChannel.hpp:47-70 | for every channel and any two windows: an encodable send can be refused with its number used up if and only if the send window is at least two |
| `BlockedChannel.BlockableWithoutFailureIff` | src/rude/detail/channel/ReliableChannel.hpp:47-70 | for every channel and any two windows, over the runs in which no send failed and no number was used up before: the same, except behind an ordered receive window of one when the send window is a power of two up to 32 |
| `FreshnessNeeded.FailureInTimeIsHarmless` | src/rude/detail/channel/ReliableChannel.hpp:324-333 | in every reachable state, a failure reported within one turn of the counter changes no other packet's slot |
| `FreshnessNeeded.TooLateFailureRemovesAnother` | src/rude/detail/channel/ReliableChannel.hpp:324-333 | false case, on every channel: one turn too late, the callback for a message long delivered and acknowledged removes a different packet |
| `FreshnessNeeded.LateFailuresHarmlessIff` | src/rude/detail/channel/ReliableChannel.hpp:324-333 | on every channel: callbacks at most d numbers late never remove another packet, in any reachable state, if and only if d is at most 65536 |
| `FreshnessNeeded.StaleDatagramIsDeliveredAgain` | src/rude/detail/channel/ReliableChannel.hpp:279-296 | false case, on every channel, ordered or not: a datagram one turn old is taken for a new one, and more messages are delivered than were accepted |
| `FreshnessNeeded.LateDatagramsHarmlessIff` | src/rude/detail/channel/ReliableChannel.hpp:279-296 | on every channel: a datagram that repeats a number at most d behind is never taken for a new one, in any reachable state, if and only if d is at most 65536 less the receive window, or 32768 when unordered |
| `FreshnessNeeded.TooLateAckLosesAMessage` | src/rude/detail/channel/ReliableChannel.hpp:223-246 | false case, on every channel: an ACK that comes when a number 65536 - 32 above its own is in flight frees that packet, which never arrived, and the message is lost |
| `FreshnessNeeded.LateAcksHarmlessIff` | src/rude/detail/channel/ReliableChannel.hpp:223-246 | every channel: an ACK frees no unrecorded packet among those less than a turn behind it and at most d ahead of it, in any reachable state, if and only if d is at most 65536 - 33 and the channel is unordered, or its receive window is below 32768 or faces a send window of one |
| `Protocol.ResentAreTheFrames` | src/rude/detail/channel/ReliableChannel.hpp:92-111 | the datagrams the two-party model puts back on the network at a tick or flush are exactly the frames the channel hands to the socket |
| `Serial.NewerIffGreater` | src/rude/detail/channel/ChannelCommon.hpp:116-119 | for numbers less than one turn apart the 16-bit comparison agrees with the true order if and only if they are at most 2^15 apart backwards and less than 2^15 forwards (section 3.2 of RFC 1982) |
| `Serial.SlotOfWrap` | src/rude/detail/channel/ReliableChannel.hpp:193-195 | when the number of slots divides 65536, the slot of the 16-bit number is the slot of the absolute number |
| `AckTracker.ReceiveAckTracker.MarkReceived` | src/rude/detail/channel/ChannelCommon.hpp:127-154 | the in-place update is the specified step of the summary |
| `AckTracker.SummaryIsExact` | src/rude/detail/channel/ChannelCommon.hpp:127-183 | after any timely arrivals, across all wraps, the newest number is the maximum received, and a number not mistaken for one of the newest 33 is acknowledged if and only if it was received and is at most 32 below the newest |
| `AckTracker.MarkedExactIff` | src/rude/detail/channel/ChannelCommon.hpp:135-153 | one arrival keeps the summary exact if and only if it is at most 2^15 behind or less than 2^15 ahead of the newest |
| `AckTracker.MarkedKeepsSound` | src/rude/detail/channel/ChannelCommon.hpp:135-153 | one arrival up to and including 2^15 away, either way, never makes the summary claim something not received |
| `AckTracker.SoundAcknowledges` | src/rude/detail/channel/ChannelCommon.hpp:172-183 | what a sound summary acknowledges was received, for any number not mistaken for one of the 33 it speaks about |
| `Words.TestBitIsBit` | src/rude/detail/channel/ChannelCommon.hpp:182 | the mask test of the source reads exactly one binary digit |
| `Words.BitOfShl` | src/rude/detail/channel/ChannelCommon.hpp:142 | a left shift of a 32-bit word moves digit j - d to j and clears the low d digits, for every shift distance |
| `Words.BitOfOrMask` | src/rude/detail/channel/ChannelCommon.hpp:152 | ORing in a one-bit mask sets that digit and no other |
| `OrderedReceiver.OrderedStep` | src/rude/detail/channel/ReliableChannel.hpp:264-310 | for every window, an arrival not mistaken for another number keeps every buffered packet in place and delivers consecutive contents from the expected number on |
| `OrderedReceiver.OrderedRefinesSet` | src/rude/detail/channel/ReliableChannel.hpp:264-310 | for every power of two up to 16384 and every fresh run: the expected number is the least number never accepted, the buffer holds exactly the accepted numbers above it, the ACK summary describes exactly the accepted set, deliveries are the contents 0, 1, 2, ... |
| `OrderedReceiver.OccupiedMeansDuplicate` | src/rude/detail/channel/ReliableChannel.hpp:270-273 | if the window divides 65536, an occupied slot at an arrival inside the window means that number was accepted before |
| `OrderedReceiver.SummaryStep` | src/rude/detail/channel/ReliableChannel.hpp:265-269 | for windows below 32768 the window check alone keeps the ACK summary exact |
| `OrderedReceiver.LargestWindowMissesAJump` | src/rude/detail/channel/ReliableChannel.hpp:293-296 | false case, an instance: with window 32768 an arrival inside the window goes unrecorded by the summary |
| `LargestWindow.SummaryExactIff` | src/rude/detail/channel/ReliableChannel.hpp:265-296 | every channel: in every reachable state the ACK summary describes exactly the recorded numbers, if and only if the channel is unordered or its receive window is below 32768 |
| `ReliableReceiver.DrainSpec` | src/rude/detail/channel/ReliableChannel.hpp:298-310 | a drain delivers the consecutive run the buffer holds from the expected number on, empties exactly those slots, leaves the others, and stops at a number not held |
| `UnorderedReceiver.DuplicateTestIsExact` | src/rude/detail/channel/ReliableChannel.hpp:279-291 | the duplicate test refuses exactly what a plain set with a 32-number history refuses |
| `UnorderedReceiver.UnorderedMatchesReference` | src/rude/detail/channel/ReliableChannel.hpp:254-291 | in every timely run an arrival is delivered exactly when the plain-set reference delivers it, no number twice, and the summary describes exactly the delivered set |
| `UnorderedReceiver.DuplicateTestExactIff` | src/rude/detail/channel/ReliableChannel.hpp:279-291 | for numbers within one turn of the newest: the duplicate test agrees with the plain set if and only if the number is at most 2^15 behind or less than 2^15 ahead, or is one of the last 32 of the turn ahead whose counterpart 65536 below was not received |
| `UnorderedReceiver.HalfTurnIsDropped` | src/rude/detail/channel/ReliableChannel.hpp:284-290 | false case, an instance of that condition: a new number exactly 2^15 ahead is dropped |
| `ReliableSender.NormalizeWindow` | src/rude/detail/channel/ReliableChannel.hpp:181-187 | every configured window becomes one in 1..32768: 0 becomes 1, larger ones become 32768, the others stay |
| `ReliableSender.SendAccounted` | src/rude/detail/channel/ReliableChannel.hpp:47-86 | a send keeps the account; an accepted one had fewer in flight than max(1, min(window, congestion window)), for any controller, and adds exactly one |
| `ReliableSender.RefusedByWindowIff` | src/rude/detail/channel/ReliableChannel.hpp:47-50 | for any controller: the window refuses a send, with SendWindowFull and no trace, if and only if something is in flight and the send window or the congestion window is used up |
| `ReliableSender.AcceptedHadRoom` | src/rude/detail/channel/ReliableChannel.hpp:218-221 | an accepted send had nothing in flight, or less than either window |
| `ReliableSender.RefusedBehindWindow` | src/rude/detail/channel/ReliableChannel.hpp:54-70 | past the window the number is used up; a packet that does not encode is refused as BadPacket, a taken slot as SendWindowFull, nothing else |
| `ReliableSender.AcceptedFrame` | src/rude/detail/channel/ReliableChannel.hpp:52-65 | the frame of an accepted send decodes to a data packet with its number, channel and message, and the ACK state of the time |
| `ReliableSender.TickDecides` | src/rude/detail/channel/ReliableChannel.hpp:96-103 | a packet is resent exactly when its deadline has come, and then waits two, four and from then on eight timeouts |
| `Addressing.FramesNameTheirChannel` | src/rude/detail/channel/ReliableChannel.hpp:52-57 | in every reachable state each data datagram decodes to a data packet of the channel with its number and accepted message, and each ACK datagram to an ACK of the channel for a recorded number, with no number or payload of its own |
| `ReliableSender.RunAccounted` | src/rude/detail/channel/ReliableChannel.hpp:218-246 | over every interleaving of sends, late failures, ACKs and ticks: the count equals the occupied slots, stays between 0 and the window, and slot i holds a number congruent to i |
| `ReliableSender.DueFrames` | src/rude/detail/channel/ReliableChannel.hpp:96-110 | a tick resends exactly the frames of the slots whose deadline has passed, as many as there are such slots |
| `ReliableSender.FlushedFrames` | src/rude/detail/channel/ReliableChannel.hpp:137-147 | a flush resends exactly the frames in flight, one for each occupied slot |
| `Retransmission.RunIsPaced` | src/rude/detail/channel/ReliableChannel.hpp:92-111 | in every run, for any tick times: a packet resent r times was last resent no earlier than T times the sum of 2^min(i,3) for i < r after its send, and its next deadline is T * 2^min(r,3) later |
| `Retransmission.WaitsClosedForm` | src/rude/detail/channel/ReliableChannel.hpp:101-102 | that sum in closed form: 2^r - 1 up to r = 3, then 8r - 17 |
| `Retransmission.LostIsSumOfRetransmissions` | src/rude/detail/channel/ReliableChannel.hpp:103-106 | in every run the loss statistic is the sum of the retransmit counts of all packets ever sent, in flight or gone |
| `ReliableChannel.ReliableChannel.constructor` | src/rude/detail/channel/ReliableChannel.hpp:36-42 | an empty channel with normalised window and the default timeout of 200 ms for 0 |
| `ReliableChannel.ReliableChannel.StoreSentPacket` | src/rude/detail/channel/ReliableChannel.hpp:312-322 | stores into the slot of the number if and only if it is free, and counts it |
| `ReliableChannel.ReliableChannel.AsyncSend` | src/rude/detail/channel/ReliableChannel.hpp:44-86 | takes exactly the specified send step on the slots and the counter; only an accepted packet reaches the socket |
| `ReliableChannel.ReliableChannel.OnSendCompleted` | src/rude/detail/channel/ReliableChannel.hpp:77-85 | a failed completion erases the packet of that number and nothing else |
| `ReliableChannel.ReliableChannel.TickSlot` | src/rude/detail/channel/ReliableChannel.hpp:97-109 | one slot of a tick: resent with doubled deadline and counted if due, untouched otherwise |
| `ReliableChannel.ReliableChannel.TickSlots` | src/rude/detail/channel/ReliableChannel.hpp:96-110 | the loop ticks every slot once, resends the due frames in slot order and counts them |
| `ReliableChannel.ReliableChannel.OnTick` | src/rude/detail/channel/ReliableChannel.hpp:95-111 | the tick is the specified one, keeps the slot accounting, and hands exactly the due frames to the socket in slot order |
| `ReliableChannel.ReliableChannel.Flush` | src/rude/detail/channel/ReliableChannel.hpp:135-148 | hands every frame in flight to the socket in slot order and changes nothing else; the caller's error code keeps the first error reported |
| `ReliableChannel.ReliableChannel.ProcessAckPacket` | src/rude/detail/channel/ReliableChannel.hpp:223-246 | the loop frees exactly the slots whose numbers the ACK covers and keeps the count |
| `ReliableChannel.ReliableChannel.DrainReadyPackets` | src/rude/detail/channel/ReliableChannel.hpp:298-310 | the loop is the specified drain: receiver state, queue contents in order, statistic |
| `ReliableChannel.ReliableChannel.ReceiveOrderedPacket` | src/rude/detail/channel/ReliableChannel.hpp:264-277 | the ordered arrival step on the slots, the tracker and the queue |
| `ReliableChannel.ReliableChannel.ReceiveUnorderedPacket` | src/rude/detail/channel/ReliableChannel.hpp:254-262 | the unordered arrival step on the tracker and the queue |
| `ReliableChannel.ReliableChannel.OnRecv` | src/rude/detail/channel/ReliableChannel.hpp:118-133 | an ACK touches only the sending half, data only the receiving half, anything else nothing |
| `ReliableChannel.ReliableChannel.BuildAck` | src/rude/detail/channel/ReliableChannel.hpp:150-161 | no ACK before the first arrival; then the summary as it stands |
| `ReliableChannel.ReliableChannel.Close` | src/rude/detail/channel/ReliableChannel.hpp:114-116 | closes the receive queue with the reason |
| `ReliableChannel.ReliableChannel.AsyncRecv` | src/rude/detail/channel/ReliableChannel.hpp:88-90 | passes the receive to the queue |
| `ReceiveQueue.RecvQueue.AsyncRecv` | src/rude/detail/channel/ChannelCommon.hpp:81-88 | the specified receive step: serve the front, park, or fail |
| `ReceiveQueue.RecvQueue.DeliverMessage` | src/rude/detail/channel/ChannelCommon.hpp:90-92 | the specified delivery step: complete the parked receive or queue |
| `ReceiveQueue.RecvQueue.CloseQueue` | src/rude/detail/channel/ChannelCommon.hpp:96-103 | the specified close step: fail the parked receive and remember the reason |
| `ReceiveQueue.RecvQueue.CompleteRecv` | src/rude/detail/channel/ChannelCommon.hpp:35-39 | the handler gets the message cut to its buffer |
| `ReceiveQueue.RunConserves` | src/rude/detail/channel/ChannelCommon.hpp:41-103 | in every interleaving of receives, deliveries and closes: delivered messages are the completed ones (each cut to its buffer) followed by the queued ones in order; every receive is answered exactly once except the parked one; a parked receive means an empty open queue |
| `ReceiveQueue.ReceiveAnswers` | src/rude/detail/channel/ChannelCommon.hpp:55-88 | after any operations a receive gets the first message nobody has got, else the reason of the last close, else ChannelClosed if another is parked, else is parked |
| `ReceiveQueue.CloseAnswers` | src/rude/detail/channel/ChannelCommon.hpp:96-103 | after any operations a close fails the parked receive with its reason, and nobody else |
| `ReceiveQueue.CutIsFront` | src/rude/detail/channel/ChannelCommon.hpp:35-39 | a buffer gets the front of the message, as much as fits |
| `ReceiveQueue.ReceivesMatchMessages` | src/rude/detail/channel/ChannelCommon.hpp:41-88 | while the queue is open and receives are issued one at a time, none fails: the k-th receive gets the k-th message, and what is unmatched is either queued or the one parked receive |
| `ReceiveQueue.ClosedAnswersEveryReceive` | src/rude/detail/channel/ChannelCommon.hpp:96-103 | once closed, every handler ever issued has been called exactly once |
| `ReceiveQueue.ClosedDrainsThenFails` | src/rude/detail/channel/ChannelCommon.hpp:81-88 | receives after the close get the queued messages in order and then the reason |
| `Codec.Encode` | src/rude/detail/DefaultCodec.hpp:45-61 | fills the front of the buffer with the frame and touches nothing behind it; a buffer that is too small is left alone and 0 returned |
| `Codec.WriteU16` | src/rude/detail/DefaultCodec.hpp:96-99 | writes the little-endian bytes and nothing else |
| `Codec.WriteU32` | src/rude/detail/DefaultCodec.hpp:100-103 | writes the little-endian bytes and nothing else |
| `Codec.Checksum` | src/rude/detail/DefaultCodec.hpp:116-123 | the loop computes 32-bit FNV-1a of the bytes |
| `KnownAnswers.FnvOfFoobar` | src/rude/detail/DefaultCodec.hpp:116-123 | the published answer of 32-bit FNV-1a for the six bytes of foobar, 0xBF9CF968 |
| `KnownAnswers.FnvOfA` | src/rude/detail/DefaultCodec.hpp:116-123 | the published answer for the byte of a, 0xE40C292C |
| `KnownAnswers.FnvOfNothing` | src/rude/detail/DefaultCodec.hpp:117 | the published answer for no bytes, the offset basis 0x811C9DC5 |
| `KnownAnswers.DataFrame` | src/rude/detail/DefaultCodec.hpp:45-61 | the complete sixteen bytes of one data frame, every field different: field order, byte order and checksum |
| `KnownAnswers.KindsOnTheWire` | src/rude/protocol/Types.hpp:20-27 | the first byte of a frame for each kind of packet |
| `Codec.DecodeOfFrame` | src/rude/detail/DefaultCodec.hpp:45-85 | every packet survives encoding and decoding; only the checksum field is filled in |
| `Codec.FrameOfDecoded` | src/rude/detail/DefaultCodec.hpp:63-85 | every byte string that decodes is reproduced byte for byte by encoding the result |
| `Codec.DecodeAcceptsFrames` | src/rude/detail/DefaultCodec.hpp:63-74 | decoding accepts a byte string if and only if it is the frame of some packet |
| `Codec.AdjacentCorruptionRejected` | src/rude/detail/DefaultCodec.hpp:63-74 | changing one byte or two neighbouring bytes anywhere in a valid frame, also across the checksum boundary, makes decoding fail |
| `Codec.FnvInjective` | src/rude/detail/DefaultCodec.hpp:116-123 | different checksum states stay different over any common suffix |
| `Codec.MultipliedInjective` | src/rude/detail/DefaultCodec.hpp:120 | multiplication by the FNV prime is injective on 32-bit words |
| `Codec.MultiplicationSpreads` | src/rude/detail/DefaultCodec.hpp:120 | words that differ in the low byte only differ above it after the multiplication |
| `ReorderBuffer.ReorderBuffer.InsertPacket` | src/rude/detail/ReorderBuffer.hpp:23-31 | the specified insert step on the slots |
| `ReorderBuffer.ReorderBuffer.DrainPackets` | src/rude/detail/ReorderBuffer.hpp:35-43 | the loop terminates and is the specified drain |
| `ReorderBuffer.ReorderBuffer.Empty` | src/rude/detail/ReorderBuffer.hpp:45-47 | true if and only if a drain would return nothing |
| `ReorderBuffer.DividingSizeKeepsOrder` | src/rude/detail/ReorderBuffer.hpp:23-43 | for a size dividing 65536 and every fresh run: the drained packets are numbers 0, 1, 2, ..., each the first inserted for its number, and the slots are the unbounded map limited to the window |
| `ReorderBuffer.SomeRunIsOutOfOrder` | src/rude/detail/ReorderBuffer.hpp:37-41 | false case: for every other size some run hands out a wrong packet |
| `ReorderBuffer.OrderIffSizeDivides` | src/rude/detail/ReorderBuffer.hpp:23-43 | all drained output is in order in every run if and only if the size divides 65536 |
| `AckedSet.AckedSet.IsSeen` | src/rude/detail/AckedSet.hpp:22-30 | the bitmap query as specified |
| `AckedSet.AckedSet.MarkReceived` | src/rude/detail/AckedSet.hpp:33-44 | the bitmap update with its slide as specified |
| `AckedSet.AckedSet.SlideDown` | src/rude/detail/AckedSet.hpp:41 | the in-place shift moves every bit down and clears the top |
| `AckedSet.SeenIsExact` | src/rude/detail/AckedSet.hpp:22-44 | for even sizes up to 32768 and every run of marks, a number within half a turn of the base is seen if and only if it is below the base or was marked inside the window |
| `AckedSet.SeenStaysSeen` | src/rude/detail/AckedSet.hpp:22-44 | a number once seen stays seen while it is within 32767 below the base |
| `AckedSet.SlideForgetsTheMissing` | src/rude/detail/AckedSet.hpp:39-43 | false case: one mark in the upper half makes numbers that never arrived look seen |
| `AckedSet.LargeSizeMisses` | src/rude/detail/AckedSet.hpp:24-27 | false case: every larger even size has a run after which an old number looks new |
| `AckedSet.ExactIffSizeAtMostHalf` | src/rude/detail/AckedSet.hpp:22-44 | over all even sizes: the bitmap is exact in every run if and only if the size is at most 32768 |
| `SendGuard.SendGuard.EnqueueJob` | src/rude/detail/SendGuard.hpp:40-48 | insertion after all jobs of no larger priority value, then a pump |
| `SendGuard.SendGuard.PumpJobs` | src/rude/detail/SendGuard.hpp:66-88 | starts the front job if none is active; terminates also when every job completes at once |
| `SendGuard.SendGuard.CompleteJob` | src/rude/detail/SendGuard.hpp:76-79 | a completion frees the guard and starts the next job |
| `SendGuard.InsertedSorted` | src/rude/detail/SendGuard.hpp:41-46 | the newest arrival keeps the queue sorted by priority and then arrival |
| `SendGuard.RunSchedules` | src/rude/detail/SendGuard.hpp:40-88 | in every run: at most one job outstanding, every job started was least by (priority, arrival) among those waiting, started plus waiting is everything enqueued, never idle with jobs waiting |
| `SendGuard.StartedIsLeast` | src/rude/detail/SendGuard.hpp:66-80 | in every run each job started by the next event is least, by priority and then arrival, of the jobs in the guard's queue just before its start |
| `SendGuard.PumpStartsFront` | src/rude/detail/SendGuard.hpp:66-88 | an idle guard starts the front of its queue up to the first job that does not complete at once; a busy one starts nothing |
| `UnreliableChannel.UnreliableChannel.AsyncSend` | src/rude/detail/channel/UnreliableChannel.hpp:42-64 | every send takes the next number, also a refused one; an encoded one goes out under it |
| `UnreliableChannel.UnreliableChannel.OnRecv` | src/rude/detail/channel/UnreliableChannel.hpp:79-95 | delivers a data packet if and only if it is the first or newer than the last delivered |
| `UnreliableChannel.DeliveredAreRecords` | src/rude/detail/channel/UnreliableChannel.hpp:79-95 | in every timely run the deliveries are exactly the arrivals larger than every earlier one, in order, so delivered numbers strictly increase across wraps |
| `Session.BasicSession.constructor` | src/rude/session/BasicSession.hpp:275-293 | a fresh session with exactly the configured channels below 8 open |
| `Session.BasicSession.CloseSession` | src/rude/session/BasicSession.hpp:441-464 | the loop over the channels is the specified teardown, and a second close changes nothing |
| `Session.BasicSession.StartSession` | src/rude/session/BasicSession.hpp:206-219 | the specified start; ignored when started or closed |
| `Session.BasicSession.OnSocketRecv` | src/rude/session/BasicSession.hpp:316-380 | dispatch of one datagram as specified: what the channel makes of a data packet goes to its queue, and the ACK it then builds is sent |
| `Session.DataIsAnswered` | src/rude/session/BasicSession.hpp:369-379 | bridge between the two models: around a reliable channel, the dispatch of a data packet is the receiver's step of the two-party system, with the same deliveries and exactly its ACK |
| `Session.BasicSession.OnKeepaliveTimer` | src/rude/session/BasicSession.hpp:405-420 | times out or sends a keepalive as specified; nothing when closed |
| `Session.BasicSession.AsyncRecv` | src/rude/session/BasicSession.hpp:126-142 | reaches the queue if and only if the channel is open, also on a closed session |
| `Session.BasicSession.AsyncDisconnect` | src/rude/session/BasicSession.hpp:176-200 | sends DISCONNECT, or closes at once if it does not encode; nothing when closed; the caller is answered at once with success or BadPacket in the last two cases, otherwise when the packet is sent |
| `Session.BasicSession.OnDisconnectSent` | src/rude/session/BasicSession.hpp:192-196 | the session closes without a reason, and the caller gets the code of that send |
| `Session.PolicyFiresOnce` | src/rude/session/BasicSession.hpp:206-219 | over every interleaving of events: onConnected fired once if started and never otherwise, never after onDisconnected, which fired exactly once if and only if the session is closed |
| `SessionRuns.EndsWithFirstEnding` | src/rude/session/BasicSession.hpp:206-225 | over every interleaving of events: the session is closed if and only if an ending happened (a decodable DISCONNECT of the peer, a socket error, silence, cancel, a policy cancel, an unencodable or a sent disconnect), and the policy was told of the first one's reason |
| `SessionRuns.DoesWhatEventsCallFor` | src/rude/session/BasicSession.hpp:316-420 | in every run the session listens to the peer of its first start, sends exactly the handshake replies, ACKs, keepalives and farewell the events call for, has exactly the configured channels below 8 open, and passes to each queue exactly what is for it |
| `SessionRuns.SendsRefusedIff` | src/rude/session/BasicSession.hpp:105-112 | in every run a send is refused with ChannelClosed if the session has ended or the channel is not configured, with MessageTooLarge if its frame exceeds the MTU, and not otherwise |
| `Session.ChannelsAreAccounted` | src/rude/session/BasicSession.hpp:441-464 | in every run and on every channel: no receive parked on a closed session, every receive answered exactly once except a parked one, messages served in order without loss |
| `Session.TimesOutIffSilent` | src/rude/session/BasicSession.hpp:405-420 | a keepalive timer ends a running session if and only if the start and every decodable datagram from the peer are longer ago than the timeout |
| `Session.ClosedIsForever` | src/rude/session/BasicSession.hpp:99-112 | whatever follows a close: still closed, no policy callback, no control packet, every send refused with ChannelClosed |
| `Session.LateReceivesDrainFirst` | src/rude/session/BasicSession.hpp:125-142 | receives after the close get the buffered messages in order and only then the reason the policy was told |
| `Session.DamagedFrameIsIgnored` | src/rude/session/BasicSession.hpp:336-340 | a frame damaged in one byte or two neighbouring bytes changes nothing, whoever sends it |
| `Handshake.ClientHandshake.constructor` | src/rude/detail/Handshake.hpp:45-56 | first INIT sent, deadline and retry timer set from the configuration |
| `Handshake.ClientHandshake.Finish` | src/rude/detail/Handshake.hpp:85-92 | completes once and cancels the timer |
| `Handshake.ClientHandshake.Init` | src/rude/detail/Handshake.hpp:95-111 | sends one INIT, or completes with BadPacket |
| `Handshake.ClientHandshake.ReceiveDatagram` | src/rude/detail/Handshake.hpp:114-135 | completes on a HANDSHAKE_ACK from the server's address, otherwise keeps waiting |
| `Handshake.ClientHandshake.ReceiveFailed` | src/rude/detail/Handshake.hpp:117-123 | a receive error completes the handshake with it |
| `Handshake.ClientHandshake.TimerExpired` | src/rude/detail/Handshake.hpp:138-152 | times out at the deadline, otherwise sends again and re-arms |
| `Handshake.CompletesOnce` | src/rude/detail/Handshake.hpp:85-135 | over every interleaving: the handler is called exactly once when done and never before, and success carries only an endpoint with the server's address |
| `Handshake.OutcomeIsFirstVerdict` | src/rude/detail/Handshake.hpp:84-152 | in every run the outcome is the first verdict among the events that happened (ACK from the server's address, receive error, unencodable retry, timer at or after the deadline), and undecided without one |
| `Handshake.InitsAreBounded` | src/rude/detail/Handshake.hpp:137-152 | at most ceil(timeout / retry) INITs are sent, however late the timers fire |
| `Handshake.InitsAreExact` | src/rude/detail/Handshake.hpp:94-152 | in every run whose first INIT encodes: one INIT at the start and one at each expiry of the retry timer that can encode it, before the deadline and while nothing had decided the outcome |
| `Handshake.InitsAreTimely` | src/rude/detail/Handshake.hpp:137-152 | with ideal timers an undecided handshake has sent an INIT at the start and after every full retry interval since |
| `Handshake.TimeoutAndRetry` | src/rude/detail/Handshake.hpp:47-49 | no configured timeout means 5000 ms, and the retry interval is a fifth of the timeout within 100 and 1000 ms |
| `Handshake.DecidedByDeadline` | src/rude/detail/Handshake.hpp:137-152 | with ideal timers the handler has been called by one retry interval after the deadline |

## Left out

- Eventual delivery: a used-up number and the 32-packet ACK history mean that the code does not promise it.
- UDP sockets, acceptor, connector, strands, completion tokens and object lifetimes: an event is an atomic step, a handler is a logged number, and a handler that calls back into the channel from inside its own call is not modelled.
- Congestion controllers: the congestion window is an arbitrary number at every send.
- The codec's refusal to encode is a parameter of a send; the default codec itself never refuses a buffer of the size the channels give it.
- RTT smoothing and all statistics except packets lost and packets received.
- Clock readings are integers passed in; retransmit counts, statistics and times do not wrap.
- `SlidingWindow`, configuration structs, error categories and statistics snapshots: no hard property.
- `SendGuard` clear and reset, and jobs that enqueue further jobs from inside their own call.
- Session: the sending side of its channels and the effect of the retransmission timer on them are modelled in the channel, not again in the session; what a channel makes of a data packet is arbitrary there, except in `DataIsAnswered`.
- Payloads are values: the aliasing of a decoded packet's payload with the receive buffer is not modelled.

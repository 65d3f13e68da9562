# Networks coursework, modelled in Dafny

This project models the protocol code of a set of networking assignments and proves properties of it:

- **Bit-level framing** (`hw1/sendrecv.py`, module `Framing`). A sender turns a message into bits, least significant first. It puts a little-endian CRC-32 in front, stuffs a `1` after every `0,1`, and ends the frame with the separator `0,1,0`. The receiver collects bits until the separator, unstuffs them, checks the checksum and delivers the message.
- **Reliable transport over a simulated network**:
  - the no-acknowledgement baseline (`hw4/trivial_ends.py`, `Trivial`);
  - stop-and-wait with an alternating bit (`hw2/ends.py`, `StopAndWait`);
  - a sliding-window sender and receiver with cumulative ACKs and wrapping sequence numbers (`hw2c/ends.py`, `SeqNum` and `SlidingWindow`).
- **The simulator those endpoints run in**:
  - the event heap ordered by time and insertion index, a clock that never runs backwards, and lazy timer cancellation (`hw2c/simulator.py` and `hw4/util.py`, `Events` and `Timers`);
  - a drop-tail buffer (`hw2/buffer.py`, `Buffer`);
  - links and connections that feed and check the endpoints (`hw2c/simulator.py`, `Network`);
  - the packet and message records (`hw4/util.py`, `Packets`).
- **Distance-vector routing** (`hw5/entity.py`, `Routing`). An entity relaxes its cost table and next-hop table with each advertisement it receives.
- **A DNS client** (`hw6/dns.py`, `Dns`). It builds a TCP-framed query (sections 3.1, 4.1.1, 4.1.2 and 4.2.2 of RFC 1035) and reads a response's records (section 4.1.3 of RFC 1035, AAAA data as in section 2.1 of RFC 3596) into a verdict: an address, a next name or a next server.
- **A small HTTP server** (`hw7/webserver.py`, `WebServer`). It maps a method and a path to a status code and content type, serialises the response as status line, header lines, blank line and body, and cuts requests off a byte stream at the blank line.

`Common` holds the Python building blocks the modules share: `Option`, `Result` with Python's exception kinds, slicing, `str.split` and `join`, `str(n)` and ASCII decoding.

Objects whose fields the source updates are classes whose methods state the complete new state:
- the event heap, the buffer, links and connections;
- the endpoints;
- the routing entity;
- the framing receiver.

Pure computations are functions, and every loop of the source is a method whose loop is proved against such a function. Configuration constants are parameters:
- `MAXIMUM_SEQUENCE`, `MAXIMUM_WINDOW`, `INITIAL_WINDOW` and `INITIAL_TIMEOUT`;
- the stop-and-wait `MODE`;
- the CRC-32 function and the simulated clock.

The transport endpoints record what they hand to the network and the application, in order, and arm and cancel their timers on the simulator they hold. The simulator runs event actions through an oracle, `react`, that gives the timers each action creates and the events it cancels; what an action does to links and endpoints is stated by their own methods.

## Model

| member | source | states |
|---|---|---|
| SeqNum.Next | hw2c/ends.py:7-9 | `_next(i)` stays in `[0, MAXIMUM_SEQUENCE]`, is `i + 1` below the maximum and wraps the maximum to 0 |
| SeqNum.Delta | hw2c/ends.py:11-18 | `_delta(i, j)` always lies in `[0, MAXIMUM_SEQUENCE]` |
| SeqNum.DeltaCases | hw2c/ends.py:11-18 | for numbers in range, `_delta(i, j)` is `j - i` when `i <= j` and `j - i + MAXIMUM_SEQUENCE + 1` otherwise |
| SeqNum.DeltaExamples | hw2c/ends.py:12-17 | the documented examples: `_delta(i, i) == 0`, `_delta(MAX, 0) == 1`, `_delta(5, 4) == MAX` |
| SeqNum.DeltaToNext | hw2c/ends.py:7-18 | `_delta(i, _next(i)) == 1` |
| SeqNum.DeltaFromNext | hw2c/ends.py:71-73 | advancing LAR by one `_next` shortens every non-zero distance to the ACK by exactly one |
| SeqNum.DeltaToNextOf | hw2c/ends.py:57 | advancing LFS by one `_next` lengthens the window by one, unless the distance was already the whole space |
| SeqNum.DeltaInjective | hw2c/ends.py:11-18 | two numbers at the same distance from a third are equal |
| SeqNum.Advance | hw2c/ends.py:71-76 | the number `k` `_next` steps after `i` is in range |
| SeqNum.DeltaAdvance | hw2c/ends.py:71-76 | the number `k` steps ahead (for `k <= MAX`) lies at distance `k` |
| SeqNum.AdvanceSucc | hw2c/ends.py:71-73 | one more step is one more `_next` |
| SeqNum.AdvanceDelta | hw2c/ends.py:71-76 | the ACK loop reaches `ack_num` after exactly `_delta(LAR, ack_num)` steps |
| SeqNum.DeltaAdd | hw2c/ends.py:11-18 | distances add along the circle when the sum does not wrap |
| SeqNum.DeltaSub | hw2c/ends.py:11-18 | a point between `i` and `k` splits the distance from `i` to `k` |
| SeqNum.Span | hw2c/ends.py:100-108 | the numbers 1 to `n` steps after `i` are all in range |
| SeqNum.AdvanceAdd | hw2c/ends.py:71-76 | advancing by `a` and then by `b` is advancing by `a + b` |
| SeqNum.AdvanceFullTurn | hw2c/ends.py:7-9 | `MAXIMUM_SEQUENCE + 1` steps return to the start |
| SeqNum.SpanSucc | hw2c/ends.py:100-108 | a span one longer adds exactly the next number |
| SeqNum.SpanFromNext | hw2c/ends.py:100-108 | the span after `i` is `_next(i)` followed by the span after `_next(i)` |
| Packets.NewPacket | hw4/util.py:23-32 | a fresh `Packet()` has no data, is not an end, has no seq, ack or timestamp, and carries the label `'(unset)'` |
| Packets.NewMessage | hw4/util.py:41-44 | a `Message` is not an end unless stated |
| Packets.Size | hw4/util.py:34-36 | `size` is the payload length plus the 8 header bytes |
| Packets.DataPacket | hw2c/ends.py:54-57 | a data packet copies the message's data and end mark and carries the given sequence number, other fields default |
| Packets.MessageOf | hw2c/ends.py:98 | the rebuilt message has the packet's data and end mark |
| Packets.MessageOfDataPacket | hw4/trivial_ends.py:12-25 | rebuilding the message of a data packet gives back the sent message |
| Events.Event.constructor | hw2c/simulator.py:18-24 | a new event carries the given time, action, description and index and is not cancelled |
| Events.BeforeIsStrictTotalOrder | hw2c/simulator.py:26-30 | `__lt__` (earlier time, ties broken by insertion index) is irreflexive, asymmetric and transitive, and total on events with distinct indices |
| Events.Insert | hw2c/simulator.py:291 | `heappush` adds exactly the one event: one longer, same multiset of events plus the new one |
| Events.InsertOrdered | hw2c/simulator.py:288-291 | pushing an event with a fresh index onto a heap listed in pop order keeps it in pop order |
| Events.TiesPopInInsertionOrder | hw2c/simulator.py:288-291 | in an ordered heap, earlier positions never have a later time, and events of equal time leave in the order they were added |
| Events.OrderedUnique | hw2c/simulator.py:288-297 | two heaps listed in pop order that hold the same events are the same list, so the heap's content alone fixes the order in which `_pop_event` hands events out |
| Events.Live | hw2c/simulator.py:340-347 | the events whose actions run are a sub-list of the popped ones, each with its flag off |
| Events.CanceledNeverFires | hw2c/simulator.py:342-346 | an event whose flag is set when it is popped is never among the events whose action runs |
| Events.Simulator.constructor | hw2c/simulator.py:271-280 | a new simulator has an empty heap, clock 0, next index 0 and is not done |
| Events.Simulator.AddEvent | hw2c/simulator.py:288-291 | the event gets the next index, the index counter advances by one, the heap becomes `Insert(old heap, e)`, the clock is unchanged |
| Events.Simulator.PopEvent | hw2c/simulator.py:293-297 | None on an empty heap; otherwise the head in pop order, which is before every event left |
| Events.Simulator.RunNext | hw2c/simulator.py:337-349 | returns False exactly on an empty heap, and then changes nothing; otherwise pops the head and moves the clock to the later of itself and the event's time. A flagged event does nothing more. An unflagged one runs its action: the heap loses the head and gains exactly the timers the action creates, the queued events it cancels get their flags, and events popped earlier keep theirs |
| Events.Simulator.Schedule | hw2c/simulator.py:366-373 | the `create_timer` calls of a running action, in order: one fresh, unflagged event per request, `timeout` after the clock, with consecutive new indices; the heap gains exactly those events and stays in pop order |
| Events.Simulator.CancelQueued | hw4/util.py:52-53 | `cancel_timer` sets the flag of each queued event the action cancels, and of no other queued event |
| Events.Simulator.Advance | hw2c/simulator.py:353-355 | one pass of `run`'s loop keeps the record of the run (`Progress`) and the time-limit record, pops at most one event, and changes nothing on an empty heap |
| Events.Simulator.Run | hw2c/simulator.py:351-355 | `run` pops events in (time, index) order, ahead of everything still queued. Popped plus queued events are exactly the initial ones plus the timers that running actions created, and those timers are what the actions asked for, in order. Exactly the events unflagged when popped have their action run. The clock ends at the latest popped time. The loop stops on an empty heap, or once the clock passes the limit with every earlier pop within it, or when the fuel runs out |
| Events.Simulator.CreateTimer | hw2c/simulator.py:366-373 | the new event fires `timeout` after the current clock, is not cancelled, takes the next index and is inserted into the heap |
| Events.ClockStep | hw2c/simulator.py:341 | one more pop moves the clock to the latest event time popped so far, and the earlier pops stayed within the limit |
| Events.ProgressStep | hw2c/simulator.py:337-349 | one `_run_next` keeps the record of the run: events still leave in order, popped plus queued are the initial events plus the created timers, those timers are what the fired actions asked for, the fired events are the unflagged popped ones, and the clock is at the latest pop |
| Events.OrderedStep | hw2c/simulator.py:337-349 | popping the head of the heap and pushing timers no earlier than the clock, with newer indices than anything popped, keeps popped-then-queued in pop order and the two apart |
| Events.ScheduledStep | hw2c/simulator.py:345 | the actions of the timers created so far grow by the actions the next running event asks for |
| Events.LiveSnoc | hw2c/simulator.py:340-347 | the fired list of a heap prefix grown by one event grows by that event exactly when it is not cancelled |
| Timers.DefaultDescription | hw4/util.py:47-49 | the synthesised description ends with the caller's site |
| Timers.CreateTimer | hw4/util.py:46-50 | the event fires `timeout` after now, keeps the action, uses the given description or else the synthesised one, and is inserted into the simulator's heap |
| Timers.CancelTimer | hw4/util.py:52-53 | cancelling sets the event's flag |
| Buffer.DropTailBuffer.constructor | hw2/buffer.py:5-9 | a new buffer is empty with no drops and the given capacity |
| Buffer.DropTailBuffer.Enqueue | hw2/buffer.py:11-17 | with room the packet is appended at the tail and no drop is counted; when full the queue is unchanged and exactly one drop is counted |
| Buffer.DropTailBuffer.Dequeue | hw2/buffer.py:19-25 | None on an empty buffer; otherwise the oldest packet, removed from the head |
| Buffer.DropTailBuffer.UsedCount | hw2/buffer.py:28-30 | the number of buffered packets, never more than the capacity |
| Network.Link.constructor | hw2c/simulator.py:33-46 | a new link is idle with zero counters around an empty buffer |
| Network.Link.Transmit | hw2c/simulator.py:51-63 | records the packet as transmitted; a dropped packet schedules nothing, otherwise exactly one fresh arrival event for the packet is pushed onto the heap, `delay` after now, with the next index; nothing else in the link changes |
| Network.Link.TransmitNext | hw2c/simulator.py:65-75 | an empty buffer leaves the link idle and the heap unchanged; otherwise the oldest packet leaves the buffer and is transmitted (its arrival as in `Transmit`), and the next dequeue is pushed one transmission time (`1 / bandwidth`) from now with the following index; the heap gains exactly those events |
| Network.Link.Enqueue | hw2c/simulator.py:77-96 | counts the packet and a wrongly numbered one, offers the destination-stamped copy to the buffer and tracks the maximum occupancy; a busy link or a full buffer schedules nothing, and an idle link with room transmits the packet at once, with the heap changes of `TransmitNext` |
| Network.MaxInt | hw2c/simulator.py:87 | Python's `max` on integers: an upper bound equal to one argument |
| Network.FirstMatch | hw2c/simulator.py:203-207 | the first in-flight position holding the message, or None when none does |
| Network.Classify | hw2c/simulator.py:191-219 | a delivery is excess iff nothing is in flight, in order iff it matches the oldest, skipped (with the count of earlier entries) iff a later entry matches first, corrupt iff none matches |
| Network.AfterReceipt | hw2c/simulator.py:192-219 | a delivery consumes a non-empty prefix of the in-flight FIFO: one entry when corrupt, up to and including the match otherwise |
| Network.ReceiptDropsPrefix | hw2c/simulator.py:208-210 | a matched delivery removes exactly the skipped entries and the matched one |
| Network.ReceiveAll | hw2c/simulator.py:191-219 | `record_received` over several deliveries never grows the in-flight FIFO |
| Network.InOrderDeliveryCountsNothing | hw2c/simulator.py:196-199 | delivering the first `k` in-flight messages in send order leaves the rest in flight and counts no skipped and no corrupt message |
| Network.Connection.constructor | hw2c/simulator.py:112-139 | a new connection has no pending or in-flight messages and zero counters |
| Network.Connection.SendPending | hw2c/simulator.py:178-189 | moves the longest accepted prefix of the pending queue, in order, to the tail of the in-flight FIFO (stamped with now) and counts it as sent; stops at the first refusal |
| Network.Connection.RecordReceived | hw2c/simulator.py:191-219 | the in-flight FIFO becomes `AfterReceipt`; received, corrupt and skipped counters advance as `Classify` says |
| Trivial.SenderFromApplication | hw4/trivial_ends.py:11-17 | the sender always accepts and emits one packet carrying the message's data and end mark, numbered 0, with no acknowledgement number or timestamp |
| Trivial.ReceiverFromNetwork | hw4/trivial_ends.py:23-25 | the receiver delivers a message with the packet's data and end mark |
| Trivial.SendAll | hw4/trivial_ends.py:11-17 | a run of messages yields one packet per message, in order |
| Trivial.ReceiveAll | hw4/trivial_ends.py:23-25 | a run of packets yields one message per packet, in order |
| Trivial.LosslessRoundTrip | hw4/trivial_ends.py:7-25 | over a network that loses and reorders nothing, the receiver delivers exactly the messages the sender was given |
| StopAndWait.Frame | hw2/ends.py:20 | the frame carries the message back out (`MessageOf`) and the current bit as its sequence number |
| StopAndWait.AckFor | hw2/ends.py:96-98 | an acknowledgement carries data `ACK`, the frame's end mark and the given sequence number |
| StopAndWait.Sender.constructor | hw2/ends.py:12-15 | a new sender has bit 0, is not waiting and holds no timer |
| StopAndWait.Sender.SendPacket | hw2/ends.py:52-64 | the packet goes to the network; the previous resend timer, if any, is cancelled; a fresh timer that resends this packet is armed `INITIAL_TIMEOUT` from now, and the heap gains exactly that timer, so at most one resend timer is live |
| StopAndWait.Sender.FromApplication | hw2/ends.py:19-30 | refuses exactly in 'one-zero' mode while waiting; 'no-ack' sends the frame; 'one-zero' sends it, arms its resend timer and starts waiting, and keeps the wire invariant `OnWire` (what was sent is `Transmissions` of the accepted messages); other modes send nothing and accept |
| StopAndWait.Sender.FromNetwork | hw2/ends.py:32-43 | only an `ACK` carrying the current bit in 'one-zero' mode ends the wait, flips the bit and asks the application for more; anything else changes nothing; `OnWire` is kept except when such an ACK arrives while not waiting, where the source flips the bit all the same |
| StopAndWait.Sender.ResendPacket | hw2/ends.py:47-50 | while waiting, the timer that fired is the current one: the frame goes out once more (one more copy on the wire, so `OnWire` is kept), that timer is cancelled and the heap gains exactly one new timer; otherwise nothing changes |
| StopAndWait.Delivered | hw2/ends.py:78-92 | the 'one-zero' receiver delivers at most one message per frame |
| StopAndWait.Copies | hw2/ends.py:47-50 | a frame resent `c` times is `c` equal copies |
| StopAndWait.Transmissions | hw2/ends.py:19-64 | an alternating-bit sender that repairs every loss by resending puts at least one frame per message on the wire |
| StopAndWait.BitAt | hw2/ends.py:41 | the bit of the `k`-th frame, flipped once per message from `bit`, is still 0 or 1 |
| StopAndWait.TransmissionsSnoc | hw2/ends.py:19-30 | accepting one more message whose frame then goes out `c + 1` times appends `c + 1` copies of that frame, with the bit of its position |
| StopAndWait.TransmissionsResend | hw2/ends.py:47-50 | resending the last accepted frame appends one more copy of it to the wire |
| StopAndWait.DuplicatesSkipped | hw2/ends.py:79-92 | copies of the frame just recorded are not delivered again |
| StopAndWait.AlternatingBitDeliversOnce | hw2/ends.py:19-92 | however many times each frame is resent, the receiver delivers every message exactly once and in order, provided its last recorded number differs from the sender's first bit |
| StopAndWait.FromStartDeliversOnce | hw2/ends.py:13-69 | the initial sender (bit 0) and the initial receiver (nothing recorded) meet that precondition, so the protocol delivers each message exactly once from the start |
| StopAndWait.WireDeliversAccepted | hw2/ends.py:19-92 | whatever a 'one-zero' sender that keeps `OnWire` has sent, a fresh receiver delivers exactly the accepted messages, in order |
| StopAndWait.Receiver.constructor | hw2/ends.py:67-69 | a new receiver expects 0 and has recorded nothing |
| StopAndWait.Receiver.FromNetwork | hw2/ends.py:73-92 | 'no-ack' delivers every frame; 'one-zero' delivers a frame only when its number differs from the last recorded, records it, flips its bit, and acknowledges every frame (new or duplicate) with its own number |
| StopAndWait.Receiver.SendAck | hw2/ends.py:96-98 | exactly one acknowledgement packet is appended to what the receiver sent |
| SlidingWindow.InitialView | hw2c/ends.py:26-31 | the sender's initial state (both edges at `MAXIMUM_SEQUENCE`, empty table) satisfies the window invariant |
| SlidingWindow.AfterSend | hw2c/ends.py:53-59 | an accepted message goes out as frame `_next(LFS)`, which joins the numbers in flight; LAR is unchanged |
| SlidingWindow.AfterAck | hw2c/ends.py:67-76 | an ignored ACK changes nothing; any other moves LAR to the ACK number, keeps LFS and retires exactly the frames in (LAR, ack] |
| SlidingWindow.FirstFrameIsZero | hw2c/ends.py:26-59 | from the initial state a message is accepted and numbered 0 |
| SlidingWindow.SendKeepsWindow | hw2c/ends.py:45-60 | sending when the window has room keeps the window invariant and grows the in-flight count by one; the new number was not already in flight |
| SlidingWindow.AckKeepsWindow | hw2c/ends.py:62-76 | an ACK that is ignored, or lies in [LAR, LFS], keeps the window invariant; afterwards the numbers in flight are exactly (ack, LFS] |
| SlidingWindow.AckIdempotent | hw2c/ends.py:62-76 | receiving the same ACK twice has the effect of receiving it once |
| SlidingWindow.RepeatedAckIsNoop | hw2c/ends.py:67-76 | an ACK of LAR itself changes nothing |
| SlidingWindow.StaleAsWrittenAdmitsUnreachableAck | hw2c/ends.py:67-73 | the written guard accepts the ACK number `_next(LAR) + MAXIMUM_SEQUENCE + 1`, which `_next` never reaches from LAR, so the loop would not end; the corrected guard ignores it |
| SlidingWindow.Retire | hw2c/ends.py:71-76 | the table after a cumulative ACK holds exactly the entries it does not cover, unchanged |
| SlidingWindow.RetireStep | hw2c/ends.py:73-74 | each pass of the ACK loop retires exactly the entry of the number LAR moves to |
| SlidingWindow.Sender.View | hw2c/ends.py:29-31 | the sender's fields read as a window: LAR, LFS and the table's keys |
| SlidingWindow.Sender.constructor | hw2c/ends.py:26-31 | a new sender is in the initial window state with the configured window size |
| SlidingWindow.Sender.DoSendPacket | hw2c/ends.py:37-43 | the packet goes to the network and its table entry is replaced by the packet with a fresh timer, armed `INITIAL_TIMEOUT` from now, that resends it |
| SlidingWindow.Sender.FromApplication | hw2c/ends.py:45-60 | accepts exactly when fewer than `window_size` frames are in flight; a refusal changes nothing; an acceptance moves the window as `AfterSend` says and sends frame `_next(LFS)` carrying the message |
| SlidingWindow.Sender.AdvanceLar | hw2c/ends.py:71-76 | the loop ends with LAR at the ACK number, the table is `Retire`d, and every retired frame's timer is cancelled |
| SlidingWindow.Sender.MarkNextDone | hw2c/ends.py:72-76 | one pass: LAR becomes `_next(LAR)` and that number's entry, if any, is removed with its timer cancelled |
| SlidingWindow.Sender.FromNetwork | hw2c/ends.py:62-81 | the window moves as `AfterAck` says, every removed entry's timer is cancelled, kept entries are untouched, and the application is asked for more exactly when the window then has room |
| SlidingWindow.AckLoopStep | hw2c/ends.py:71-73 | each pass brings LAR one step nearer the ACK number and one step further from where it started, so the loop ends |
| SlidingWindow.Drain | hw2c/ends.py:100-108 | the delivery loop delivers at most as many messages as are buffered |
| SlidingWindow.DrainDelivers | hw2c/ends.py:100-108 | the `k`-th delivered message is the one buffered `k` numbers after LFR |
| SlidingWindow.DrainLfr | hw2c/ends.py:100-108 | LFR ends as many numbers further on as messages were delivered |
| SlidingWindow.DrainStops | hw2c/ends.py:100-108 | the loop stops at a gap: the number after the new LFR is not buffered |
| SlidingWindow.DrainBuffered | hw2c/ends.py:100-108 | exactly the delivered frames leave the buffer |
| SlidingWindow.DrainBound | hw2c/ends.py:100-108 | when LFR itself is not buffered, one drain delivers at most `MAXIMUM_SEQUENCE` frames |
| SlidingWindow.ReceiveKeepsInvariant | hw2c/ends.py:92-108 | accepting a non-duplicate frame and draining keeps every buffered in-range frame two to `MAXIMUM_WINDOW` numbers ahead of the new LFR |
| SlidingWindow.KeptAhead | hw2c/ends.py:100-108 | a buffered frame that was not drained, and is not the next one, stays at least two numbers ahead of the new LFR |
| SlidingWindow.OutOfOrderIsBuffered | hw2c/ends.py:99-108 | a frame that arrives ahead of a gap is only buffered: nothing is delivered and LFR stays |
| SlidingWindow.InOrderIsDelivered | hw2c/ends.py:99-106 | the frame right after LFR is delivered at once, before anything it unblocks |
| SlidingWindow.AckPacket | hw2c/ends.py:111 | the receiver's ACK carries only the acknowledgement number, no data and no sequence number |
| SlidingWindow.LastAckSentAsWritten | hw2c/ends.py:112 | as written, `last_ack_sent` takes the incoming packet's acknowledgement number |
| SlidingWindow.LastAckSentAsWrittenLosesAck | hw2c/ends.py:111-112 | for a data packet that number is `None`, so it never names the ACK actually sent |
| SlidingWindow.Receiver.constructor | hw2c/ends.py:84-87 | a new receiver has LFR and LAS at `MAXIMUM_SEQUENCE` and nothing buffered |
| SlidingWindow.Receiver.FromNetwork | hw2c/ends.py:89-113 | a duplicate changes nothing but the ACK log; any other frame is buffered and drained as `Drain` says; either way one cumulative ACK naming the new LFR goes out, and LAS records it |
| SlidingWindow.Receiver.DeliverInOrder | hw2c/ends.py:100-108 | the loop leaves LFR, the buffer and the delivered messages exactly as `Drain` computes them |
| Framing.ByteBits | hw1/sendrecv.py:22-23 | a byte yields exactly eight bits |
| Framing.Bits | hw1/sendrecv.py:18-24 | a byte string yields eight bits per byte |
| Framing.PartialSum | hw1/sendrecv.py:29-31 | after `j` steps of the inner loop, `current` is below `2^j` |
| Framing.Pack | hw1/sendrecv.py:26-33 | whole bytes' worth of bits pack into one byte per eight bits |
| Framing.PartialSumOfBits | hw1/sendrecv.py:22-31 | the first `j` bits of a byte add back up to the byte modulo `2^j` |
| Framing.ByteRoundTrip | hw1/sendrecv.py:18-33 | the eight bits of a byte pack back into that byte |
| Framing.BitsRoundTrip | hw1/sendrecv.py:18-33 | `bits_to_bytes(bytes_to_bits(b)) == b` for every byte string |
| Framing.BytesToBits | hw1/sendrecv.py:18-24 | the loop yields `Bits(b)`, little-endian within each byte, and its result packs back to `b` |
| Framing.BitsToBytes | hw1/sendrecv.py:26-33 | the loop packs each group of eight bits, least significant first, into one byte (`Pack`) |
| Framing.EscapeLength | hw1/sendrecv.py:54-61 | stuffing adds exactly one bit per 0,1 pair in the data |
| Framing.EscapeHead | hw1/sendrecv.py:56-61 | the stuffed stream begins with the first data bit, doubled when it completes a 0,1 pair |
| Framing.Unescape | hw1/sendrecv.py:91-101 | unstuffing never yields more bits than it reads |
| Framing.UnescapeFromIsUnescape | hw1/sendrecv.py:95-101 | the loop's index-based unstuffing agrees with `Unescape` on every suffix |
| Framing.UnescapeEscape | hw1/sendrecv.py:54-101 | unstuffing undoes stuffing, from any point where the stuffed stream so far does not end in a bare 0,1 |
| Framing.EscapeIsStuffed | hw1/sendrecv.py:54-61 | in a stuffed stream every 0,1 is followed by a 1, so 0,1,0 never appears inside a frame |
| Framing.Fires | hw1/sendrecv.py:76-85 | the separator check fires exactly when at least three bits are collected and the last three are 0,1,0 |
| Framing.SeparatorOnlyAtEnd | hw1/sendrecv.py:64-85 | on a stuffed stream followed by the separator, the separator test first fires on the frame's last bit |
| Framing.PackU32 | hw1/sendrecv.py:46 | `struct.pack('<L', v)` gives four bytes |
| Framing.U32RoundTrip | hw1/sendrecv.py:46-117 | `struct.unpack('<L', struct.pack('<L', v)) == v` |
| Framing.FrameBits | hw1/sendrecv.py:64 | every frame ends with the separator 0,1,0 |
| Framing.DecodeFrame | hw1/sendrecv.py:89-130 | a message is delivered exactly when the unstuffed bits are whole bytes, at least four of them, and the first four hold the CRC-32 of the rest; the message is the bytes after the checksum |
| Framing.DecodeSentFrame | hw1/sendrecv.py:41-130 | a frame the sender built decodes to its message |
| Framing.DecodeWholeBytes | hw1/sendrecv.py:105-127 | stuffed bits that unstuff to a correct checksum and its bytes decode to those bytes |
| Framing.SendMessage | hw1/sendrecv.py:41-66 | `send_message` hands the channel exactly `FrameBits`: checksum, message bits, stuffing, separator |
| Framing.EscapeFromIsEscape | hw1/sendrecv.py:54-61 | the loop's index-based stuffing agrees with `Escape` on every suffix |
| Framing.EscapeBits | hw1/sendrecv.py:54-61 | the stuffing loop computes `Escape(None, bits)` |
| Framing.OnBit | hw1/sendrecv.py:81-133 | a bit that completes the separator clears the collected bits; any other bit is only collected and delivers nothing |
| Framing.FeedQuietBit | hw1/sendrecv.py:81-85 | a bit that does not complete the separator is only collected |
| Framing.FeedCollects | hw1/sendrecv.py:81-85 | bits on which the separator check never fires are only collected |
| Framing.FeedFrame | hw1/sendrecv.py:81-133 | a whole frame arriving at an idle receiver delivers its message and leaves it idle |
| Framing.FrameQuietUntilEnd | hw1/sendrecv.py:54-85 | the separator check stays quiet on a frame until its last bit |
| Framing.EndToEnd | hw1/sendrecv.py:41-133 | feeding the sender's bits unchanged to a fresh receiver delivers exactly the messages sent, in order, and leaves no bits behind |
| Framing.Receiver.constructor | hw1/sendrecv.py:69-72 | a new receiver has collected nothing and holds no checksum |
| Framing.Receiver.HandleBitFromNetwork | hw1/sendrecv.py:81-133 | the collected bits and delivered messages change exactly as `OnBit` says, and the checksum is cleared afterwards |
| Framing.Receiver.UnescapeBits | hw1/sendrecv.py:91-101 | the unstuffing loop computes `Unescape(None, None, bits)` |
| Dns.QTypeTable | hw6/dns.py:8-10 | `QTYPES` maps each known TYPE value (1, 28, 5, 2) back to its record type and raises KeyError exactly for values no known type has |
| Dns.Word | hw6/dns.py:158 | a two-byte field read with `int.from_bytes` is below 65536 |
| Dns.WordAt | hw6/dns.py:158-164 | a field that lies wholly in the packet is its first byte times 256 plus its second |
| Dns.PackBigEndian16 | hw6/dns.py:56 | `struct.pack('>H', v)` gives two bytes that read back as `v` most significant first |
| Dns.PackNative16 | hw6/dns.py:78 | `struct.pack('H', v)` gives two bytes, least significant first |
| Dns.CodePoints | hw6/dns.py:70 | `[ord(ch) for ch in label]` has one value per character |
| Dns.LabelBytes | hw6/dns.py:66-71 | a label on the wire is its length byte followed by its characters |
| Dns.PackLabels | hw6/dns.py:64-73 | the label loop succeeds exactly when every piece fits a byte string, and otherwise raises ValueError |
| Dns.NonEmpty | hw6/dns.py:66-68 | the labels kept are non-empty pieces of the name, no more of them than pieces |
| Dns.WellFormedNameLabels | hw6/dns.py:64-68 | for a name without empty labels, joining the kept labels with dots gives the name back |
| Dns.DropLastTerminated | hw6/dns.py:107-109 | dropping the final dot from the accumulated labels gives the labels joined by dots |
| Dns.TerminatedSnoc | hw6/dns.py:107 | one more label adds that label and a dot at the end of the accumulated name |
| Dns.ReadHostname | hw6/dns.py:95-109 | the loop returns `ReadName`: the labels up to the zero byte joined by dots, and the offset just past the zero byte; IndexError when it reads past the end, UnicodeDecodeError for a non-ASCII label |
| Dns.ReadLabelsStep | hw6/dns.py:100-108 | a non-empty label contributes its text and a dot ahead of what follows |
| Dns.ReadPackedLabels | hw6/dns.py:64-109 | reading back labels packed by `create_request` gives the non-empty pieces, each followed by a dot, and the offset after the zero byte |
| Dns.LabelReadsBack | hw6/dns.py:70-106 | the code points of an ASCII label decode back to the label |
| Dns.Header | hw6/dns.py:48-61 | the header is twelve bytes |
| Dns.Request | hw6/dns.py:43-86 | no request exactly without a query code; ValueError exactly when a label does not fit a byte string |
| Dns.CreateRequest | hw6/dns.py:43-86 | the method computes `Request` for the chosen transaction ID |
| Dns.RequestLayout | hw6/dns.py:48-86 | a request starts with the big-endian length of the rest, then an ID of two bytes below 128, flags 0x0400, one question and no records, and ends with QTYPE = `code` and QCLASS = 1 |
| Dns.RequestNameRoundTrip | hw6/dns.py:64-109 | reading the question name back out of a request gives the host name's labels joined by dots and the offset of QTYPE; for a well-formed name that is the name itself |
| Dns.PiecesAscii | hw6/dns.py:64 | the pieces of an ASCII name are ASCII |
| Dns.Hex4 | hw6/dns.py:126 | `f'{v:04x}'` is four characters |
| Dns.Hex4Digits | hw6/dns.py:126 | the four characters are lower-case hexadecimal digits, never a colon |
| Dns.Hex4RoundTrip | hw6/dns.py:125-126 | `int(f'{v:04x}', 16) == v` for every 16-bit value |
| Dns.HexDigitsRoundTrip | hw6/dns.py:126 | `n` hexadecimal digits read back as the number written, when it fits |
| Dns.DecimalFields | hw6/dns.py:115-117 | one decimal text per byte read |
| Dns.Segment | hw6/dns.py:125 | each IPv6 group is a 16-bit value |
| Dns.HexGroups | hw6/dns.py:123-126 | one hexadecimal group per two bytes read |
| Dns.Ipv4TextFields | hw6/dns.py:113-118 | an IPv4 address text splits at its dots into four fields that read back as the record's first four bytes |
| Dns.Ipv6TextFields | hw6/dns.py:121-127 | an IPv6 address text splits at its colons into eight groups that read back as the record's 16-bit values |
| Dns.RecordCursor | hw6/dns.py:186-207 | an unknown TYPE raises KeyError; otherwise the record's type is the one TYPE names and the cursor moves past ten header bytes and RDLENGTH bytes of data |
| Dns.ReadRecordsAdvance | hw6/dns.py:184-207 | one more record read by the loop moves from the unread part to the records read |
| Dns.ReadRecordsUnfold | hw6/dns.py:184-207 | reading `n + 1` records is reading one, then `n` more from where it ends |
| Dns.ReadRecordsStops | hw6/dns.py:184-207 | a record that cannot be read ends the whole reading with its error |
| Dns.TextsSnoc | hw6/dns.py:112-139 | one more record adds its text to the addresses when its type is an address type and to the names otherwise |
| Dns.Classify | hw6/dns.py:236-245 | 'address' with the answer addresses exactly when there is one; 'next-name' with the last answer name exactly when there is none but a CNAME; otherwise 'next-server' with the server names and addresses |
| Dns.AddressesFound | hw6/dns.py:194-195 | there are answer address texts exactly when an answer record has an address type, so `found_address` agrees with the list |
| Dns.NamesFound | hw6/dns.py:196-241 | a CNAME answer leaves a name, so `answer_names[-1]` does not fail |
| Dns.ProcessResponse | hw6/dns.py:144-155 | 'malformed' exactly when the response bit is clear; for a response, 'error' exactly when RCODE is non-zero; IndexError on a packet too short to hold the flags |
| Dns.RequestIsNotAResponse | hw6/dns.py:55-155 | the request `create_request` builds, read as a response, is 'malformed' |
| Dns.ReadRecordData | hw6/dns.py:112-139 | the address loops and name reads compute `RecordText`: four decimal fields for IPv4 (IndexError when short), eight hexadecimal groups for IPv6, the name read at the data for CNAME and NS |
| Dns.ReadResource | hw6/dns.py:186-207 | one pass of a record loop computes `ReadRecord` |
| Dns.RecordFieldsText | hw6/dns.py:190-207 | a known type and the text its data gives make up the record and move the cursor past the data |
| Dns.SkipQuestionRecords | hw6/dns.py:168-176 | the question loop computes `SkipQuestions` |
| Dns.ReadResources | hw6/dns.py:179-231 | a record loop fails exactly when reading the records fails, with the same error; otherwise it yields the names, addresses, and address and CNAME flags of exactly the records read |
| Dns.TakeRecord | hw6/dns.py:194-205 | filing one more record keeps the names, addresses and flags equal to those of the records read so far |
| Dns.HasAfterSnoc | hw6/dns.py:194-197 | an address or CNAME has been seen after one more record exactly when it had been before or the record is one |
| Dns.ResponseSections | hw6/dns.py:157-248 | past a header reporting a successful response, `process_response` is the reading of its sections |
| Dns.SectionsOutcome | hw6/dns.py:168-248 | the sections fail with the first loop's error, or else are classified from the answers and the server records |
| Dns.ProcessResponseBytes | hw6/dns.py:144-248 | the method computes `ProcessResponse` |
| Dns.ReadSections | hw6/dns.py:168-248 | the three loops and the classification compute `Sections` |
| Routing.Plus | hw5/entity.py:112 | a link cost plus an advertised cost is infinite exactly when either is, and otherwise their sum |
| Routing.BelowOrder | hw5/entity.py:116 | `<` on costs, with infinity above every number, is a strict total order |
| Routing.Relax | hw5/entity.py:111-118 | a relaxation step returns the lower of the old and the offered cost, and changes the entry exactly when the offer is strictly lower |
| Routing.RelaxLaws | hw5/entity.py:111-118 | relaxing twice with one offer is relaxing once, and two offers give the same result in either order |
| Routing.Drop | hw5/entity.py:173 | removing a key keeps every other key and their distinctness |
| Routing.Dict.Put | hw5/entity.py:78 | `d[k] = v` stores `v` under `k`, keeps every other entry, leaves an existing key in its place and appends a new one |
| Routing.Dict.Remove | hw5/entity.py:173 | deleting one key removes it and keeps every other entry |
| Routing.PutAll | hw5/entity.py:77-78 | storing a list of pairs keeps the dict well formed |
| Routing.LastWith | hw5/entity.py:77-78 | the index of the last pair naming a key, or -1 when none does |
| Routing.PutAllLookup | hw5/entity.py:77-78 | after storing the pairs, a key holds the value of its last pair; a key no pair names keeps its old entry |
| Routing.CostsNeverIncrease | hw5/entity.py:108-118 | after an advertisement no cost rises, and each cost it reaches is at most the link cost plus the advertised cost |
| Routing.HopFollowsImprovement | hw5/entity.py:116-118 | the next hop to a destination becomes the sender exactly when its cost strictly drops; otherwise it stays |
| Routing.UpdateIdempotent | hw5/entity.py:108-118 | the same advertisement arriving twice changes nothing the second time |
| Routing.CostsCommute | hw5/entity.py:108-118 | the costs after two advertisements do not depend on the order in which they arrive |
| Routing.RelaxStep | hw5/entity.py:108-118 | one pass of the loop relaxes exactly entry `d` |
| Routing.RelaxTruncated | hw5/entity.py:108-111 | an advertisement longer than the table acts only on the entries the table has before the out-of-range index raises |
| Routing.PyIndex | hw5/entity.py:193 | Python `s[i]`: indices `0..len-1` and `-len..-1` succeed, any other raises IndexError |
| Routing.Entity.constructor | hw5/entity.py:17-57 | a new entity has every cost infinite, no next hops and an empty neighbour dict |
| Routing.Entity.InitializeCosts | hw5/entity.py:59-93 | stores every (neighbour, cost) pair; then, when every other entity has a direct link, sends each neighbour, in dict order, the vector that is 0 here and the link cost elsewhere, and otherwise raises KeyError; the tables are unchanged |
| Routing.Entity.LinkVector | hw5/entity.py:82-87 | the vector is 0 at this entity and the direct link cost elsewhere, and KeyError exactly when some other entity has no direct link |
| Routing.Entity.AdvertiseTo | hw5/entity.py:90-93 | one packet per neighbour, in dict order, all carrying the same vector |
| Routing.Entity.Update | hw5/entity.py:95-121 | for every destination the advertisement reaches, the cost becomes the lower of the old cost and link-plus-advertised cost and the next hop the sender where it strictly dropped; AttributeError after the dict was deleted, KeyError for an unknown sender, IndexError for an advertisement longer than the table (after relaxing what fits); nothing is sent |
| Routing.Entity.PeriodicUpdate | hw5/entity.py:123-133 | sends nothing |
| Routing.Entity.AddNeighbor | hw5/entity.py:135-154 | stores the link cost in the neighbour dict and changes no route; AttributeError once the dict is gone |
| Routing.Entity.DeleteNeighbor | hw5/entity.py:156-174 | as written, removes the whole neighbour dict whichever neighbour is named; the tables are unchanged |
| Routing.Entity.RemoveLink | hw5/entity.py:156-174 | removes only the named link, keeping every other link; KeyError for a neighbour with no link, AttributeError once the dict is gone |
| Routing.Entity.ForwardNextHop | hw5/entity.py:177-193 | this entity for itself; otherwise the next-hop entry under Python indexing, IndexError out of range |
| Routing.Entity.GetAllCosts | hw5/entity.py:195-215 | one (next hop, cost) pair per entity, in index order |
| Routing.DeleteNeighborLosesEveryLink | hw5/entity.py:173 | after deleting link 1 of entity 0 (links 1 cost 5, 2 cost 3), an advertisement from 2 raises AttributeError |
| Routing.RemoveLinkKeepsOthers | hw5/entity.py:156-174 | with only link 1 removed, the same advertisement is used and entity 2 costs 3 via 2 |
| WebServer.EncodeChar | hw7/webserver.py:137 | one character encodes to one to four bytes: a single byte below 128 for ASCII, otherwise bytes that are all at least 128 |
| WebServer.Utf8 | hw7/webserver.py:137 | `bytes(s, 'utf-8')` has at least one byte per character |
| WebServer.Utf8Append | hw7/webserver.py:135-137 | encoding distributes over concatenation |
| WebServer.Utf8Ascii | hw7/webserver.py:144 | ASCII text encodes to its own code points, one byte per character |
| WebServer.Utf8NoReturn | hw7/webserver.py:135-137 | text without a carriage return encodes to bytes without 13 |
| WebServer.Utf8Head | hw7/webserver.py:135-137 | text that does not start with a carriage return does not encode to bytes starting with 13 |
| WebServer.GetResponseCode | hw7/webserver.py:26-48 | 405 exactly for a method other than GET and HEAD; 403 exactly for an unreadable servable file; 200 exactly for a readable servable file whose name does not mention `redirect-example`; 301 exactly for a readable servable file whose name does, or for the name `redirect-example` itself when it is not servable; 404 exactly for every other path |
| WebServer.Find | hw7/webserver.py:70 | `s.find(c)` is the first index holding `c`, or -1 when there is none |
| WebServer.ExtensionAfterFirstDot | hw7/webserver.py:70 | for a path whose first dot ends `stem`, the extension is everything after that dot |
| WebServer.ExtensionWithoutDot | hw7/webserver.py:70 | without a dot the whole path serves as the extension |
| WebServer.ContentType | hw7/webserver.py:70-79 | `text/html` exactly for the extensions `html` and `htm`, `text/plain` exactly for `txt`, `text/other` exactly for every other extension |
| WebServer.BuildResponse | hw7/webserver.py:61-108 | the status is `get_response_code`'s; only a 200 carries a content type (the one `ContentType` gives) and length, only a 301 a location (`/redirect-target.html`). A GET of a file carries it: the raw bytes for `text/other`, the decoded text otherwise, with the length of that body; a HEAD has an empty body. A text file that does not decode raises UnicodeDecodeError, and only on a 200. The 301, 403, 404 and 405 bodies are `Redirect: `, `Access denied: ` and `File not found: ` followed by the path, and `Unsupported method: ` followed by the method |
| WebServer.RequestLine | hw7/webserver.py:53 | the request line is a prefix of the request |
| WebServer.RequestLineRoundTrip | hw7/webserver.py:53 | a line without carriage returns, followed by CRLF and anything, reads back as that line |
| WebServer.Process | hw7/webserver.py:51-108 | a request that does not decode raises UnicodeDecodeError |
| WebServer.AsciiRoundTrip | hw7/webserver.py:52 | ASCII text survives encoding and decoding |
| WebServer.ProcessRequestReadsRequestLine | hw7/webserver.py:51-61 | a request written `method path version`, CRLF and the rest is answered from exactly that method and path, under either length measure |
| WebServer.CreateResponse | hw7/webserver.py:111-146 | the method builds the status line, date, server, optional location, optional content type and `Content-Length` header lines and returns `Serialize`: the header lines joined by CRLF, a blank line, then the body bytes |
| WebServer.FindBlankLine | hw7/webserver.py:181 | the position of the first blank line is -1 or leaves room for its four bytes |
| WebServer.SplitBlankLine | hw7/webserver.py:181-187 | when the buffer holds a blank line, the part before it, the blank line and the part after it make up the buffer |
| WebServer.FindBlankLineStable | hw7/webserver.py:181 | more bytes after the first blank line do not move it |
| WebServer.BlankAfterBreaks | hw7/webserver.py:135-137 | when every 13 in a header starts a lone CRLF, the first blank line is the one that ends the header |
| WebServer.BreaksCons | hw7/webserver.py:135 | a line without carriage returns, a CRLF and a header of that shape again has that shape |
| WebServer.JoinLinesStart | hw7/webserver.py:135 | joined lines start with the first line's first character |
| WebServer.JoinLinesBreaks | hw7/webserver.py:135-137 | non-empty header lines without carriage returns, joined by CRLF and encoded, have that shape |
| WebServer.Utf8Break | hw7/webserver.py:135-137 | a CRLF between two texts encodes to bytes 13, 10 between their encodings |
| WebServer.Utf8LineBreak | hw7/webserver.py:135 | CRLF encodes to 13, 10 |
| WebServer.Utf8BlankLine | hw7/webserver.py:136 | the blank line encodes to 13, 10, 13, 10 |
| WebServer.HeaderLinesPlain | hw7/webserver.py:116-133 | the header lines are non-empty and free of carriage returns when the date, location and content type are |
| WebServer.ReasonPlain | hw7/webserver.py:9-15 | no reason phrase holds a carriage return |
| WebServer.PlainAppend | hw7/webserver.py:116-133 | plain header lines followed by plain header lines are plain |
| WebServer.ResponseFraming | hw7/webserver.py:111-146 | a client that splits a response at its first blank line, as the server splits requests, gets exactly the encoded header lines and exactly the body bytes, whenever the date, location and type hold no carriage return |
| WebServer.HeaderSplits | hw7/webserver.py:135-146 | plain header lines, a blank line and a body split back into the encoded header and the body |
| WebServer.SplitAfterBreaks | hw7/webserver.py:135-146 | a header of lone CRLFs, a blank line and a body split back into the header and the body |
| WebServer.ContentLengthCountsBytes | hw7/webserver.py:90-146 | with the length measured in bytes, `Content-Length` equals the body bytes sent for every ASCII method and path, and for a HEAD of a file equals what the GET would send |
| WebServer.AsciiMessage | hw7/webserver.py:98-106 | an error message made of ASCII text has one byte per character |
| WebServer.ContentLengthCountsCharacters | hw7/webserver.py:87-90 | as written, a GET of an HTML file holding the one character `é` announces a length of 1 and sends 2 body bytes |
| WebServer.ConcatStep | hw7/webserver.py:172-179 | the chunk received at step `i` comes before those received after it |
| WebServer.SplitBlankLineStable | hw7/webserver.py:179-187 | more bytes arriving after the first blank line stay after it |
| WebServer.FramesAppend | hw7/webserver.py:179-187 | the requests cut from a stream do not depend on how `recv` chops it into chunks |
| WebServer.FirstFailure | hw7/webserver.py:190 | the requests before the count are all handled without raising, and the one at the count raises |
| WebServer.FirstFailureAt | hw7/webserver.py:190 | the first raising request, after requests that all succeed, is where the count stops |
| WebServer.ServeAsWritten | hw7/webserver.py:170-192 | with `process_request` as written, every request before the first raising one is answered in order with `create_response`; the loop then crashes with that request's error, breaks when the buffer is empty when the client closes, and otherwise never ends |
| WebServer.Serve | hw7/webserver.py:170-192 | with the corrected length and close handling, the same answers are sent and the loop ends unless a request raises |
| WebServer.ServingStart | hw7/webserver.py:170 | before anything is received the loop state holds with an empty buffer |
| WebServer.ServingReceive | hw7/webserver.py:172-179 | appending the next chunk to the buffer keeps the loop state |
| WebServer.ServingAnswer | hw7/webserver.py:181-192 | cutting one request off the buffer and sending its response keeps the loop state |
| WebServer.AnsweredSnoc | hw7/webserver.py:190-192 | one more response sent, to the next request, keeps every response matched with its request |
| WebServer.ServingEnds | hw7/webserver.py:173-184 | when the loop stops after the client has closed, every complete request of the stream has been cut off |
| WebServer.ServingCrashes | hw7/webserver.py:186-190 | the request that raises is the first raising request of the whole stream |
| WebServer.FailureAfter | hw7/webserver.py:190 | answered requests followed by a raising one put the first failure at that one |
| WebServer.Respond | hw7/webserver.py:191 | the response to the `j`-th request is `create_response` with the `j`-th date |
| WebServer.ServeLoop | hw7/webserver.py:170-192 | answers the requests of the stream in order up to the first raising one, then crashes with its error; otherwise breaks, or spins on an incomplete request left after the close unless the close handling is corrected |
| WebServer.PartialRequestSpins | hw7/webserver.py:171-184 | as written, a client that sends one byte and closes leaves the loop spinning |
| WebServer.PartialRequestCloses | hw7/webserver.py:171-184 | with the close handled, the same client ends the loop |
| Common.Slice | hw7/webserver.py:31 | Python slicing with non-negative bounds: the plain slice when the bounds are in range, clamped at the end otherwise |
| Common.AsciiBytesAll | hw6/dns.py:106 | bytes decode as ASCII exactly when each is below 128 |
| Common.AsciiDecode | hw6/dns.py:106 | decoding gives one character per byte, each with the code point of its byte |
| Common.NatToString | hw6/dns.py:117 | `str(n)` is a non-empty string of decimal digits |
| Common.NatToStringRoundTrip | hw6/dns.py:117 | `int(str(n)) == n` |
| Common.Split | hw6/dns.py:64 | `s.split(sep)` gives at least one piece, no piece holds the separator, and joining the pieces gives `s` back |
| Common.SplitCons | hw7/webserver.py:53-56 | a piece without the separator, then the separator, splits off as the first piece |
| Common.SplitAlone | hw7/webserver.py:56 | a string without the separator splits into itself alone |
| Common.SplitJoin | hw6/dns.py:64 | `sep.join(pieces).split(sep) == pieces` when no piece holds the separator |

## Left out

- Randomness:
  - `Link._transmit` draws the drop decision and the delay jitter from a random generator; here they are parameters of `Network.Link.Transmit`, `Network.Link.TransmitNext` and `Network.Link.Enqueue`.
  - `Connection.generate_messages` is not modelled for the same reason.
  - The random DNS transaction ID is an input (`id0`, `id1`, each below 128 as `random.randint(0, 127)` draws them).
- Floating point: latency and occupancy statistics, `json_info`, and the mean buffer occupancy that `Link.enqueue` accumulates. Simulated time is `real`. Costs in routing are whole numbers or infinity, where the source uses numbers and `math.inf`.
- Output: `trace`, `error` and `print` output, the CSV file the sliding-window sender opens, and JSON text. `process_response` yields a `Dns.Response` value instead of its JSON rendering.
- Foreign code:
  - `zlib.crc32` is an arbitrary function to 32-bit values;
  - `heapq` is replaced by a sequence kept in pop order;
  - Python's traceback, which `create_timer` uses to describe a timer, is a `site` string.
- Sockets, `sys.stdin`/`stdout`, `argparse`, the DNS `__main__` block and the web server's `--request` mode are not part of the model.
- `hw5/packet.py` is not part of this model. Its `Packet` is represented by `Routing.Arrival` (source and costs) and `Routing.Advert` (destination and costs).
- Web server file system and clock:
  - The file system is an oracle (`WebServer.Webroot`) keyed by the request path. `Path('webroot' + path)` normalisation is not modelled.
  - Reading a text file either yields its text or fails with UnicodeDecodeError.
  - `datetime.now()` and its `%Z` formatting are a date string supplied per response.
- Web server connection: only one connection is served. `recv` returns non-empty chunks until the client closes and nothing afterwards.
- Network.Link.Enqueue: the `AttributeError`/`TypeError` branches that set `_maximum_buffer` to -1 are not modelled. They cannot happen with `DropTailBuffer`, which always has `get_current_used_count`.
- Network.Connection.RecordReceived: timestamps and `missing_is_error` only feed statistics and error output, so they are not modelled.
- Packets.Size: requires a payload, so the TypeError of `len(None)` on a packet without data is not modelled.
- Framing.BitsToBytes: requires a whole number of bytes. Its one caller checks this first (`hw1/sendrecv.py:105`), so the IndexError path is not modelled.
- Framing.Receiver.HandleBitFromNetwork: requires `checksum` to be unset on entry. Every call leaves it unset, so this is the state between calls.
- SlidingWindow.Sender.FromNetwork: requires the packet to carry an ACK number. The TypeError `_delta` raises on `None` is not modelled.
- SlidingWindow.Receiver.FromNetwork: requires the packet to carry a sequence number, for the same reason.
- Dns.ReadHostname: label bytes are decoded as ASCII. A label holding non-ASCII UTF-8 raises UnicodeDecodeError here, though Python would decode it. Compressed names (section 4.1.4 of RFC 1035) are not expanded, as in the source.
- Dns.PackNative16: `struct.pack('HH', ...)` is taken on a little-endian host.
- WebServer.Process: a request is decoded only when it is ASCII. Other UTF-8 requests raise UnicodeDecodeError here, though Python would decode them.
- WebServer.ServeAsWritten: where the loop of the source would spin forever, the model stops and reports `Spins`.
- WebServer.ServeLoop: takes the request handler as a parameter, so that the same loop serves the as-written and the corrected `process_request`.
- WebServer.ServeLoop: each response is sent whole. `connection.send` (`hw7/webserver.py:192`) may send only part of it, and the source ignores the count it returns.
- WebServer.Respond: the response is the whole of `create_response`'s bytes, for the same reason.
- Events.Simulator.Run: stops after `fuel` pops. Actions may reschedule for ever, and `run` with no time limit then never returns.
- Events.Simulator.RunNext: an action's effect on the scheduler comes from the oracle `react` (timers to create, events to cancel); the callbacks themselves are modelled by the link and endpoint methods, not called from here.
- Events.Simulator.CancelQueued: cancelling an event that has already left the heap is not recorded. Its flag is never read again, so no run can tell.
- Delays: the delays actions ask for (`Events.Delay`) are non-negative, as transmission times, link delays and `INITIAL_TIMEOUT` are.

## Findings

| source | as written | input that shows it | evidently intended | confidence | as-written member | corrected member |
|---|---|---|---|---|---|---|
| hw2c/ends.py:67-73 | an ACK is ignored only when `_delta(LAR, ack) > MAXIMUM_WINDOW`, so an ACK number outside `[0, MAXIMUM_SEQUENCE]` can pass the guard, and `while LAR != ack` then never ends | `MAXIMUM_SEQUENCE = 7`, `MAXIMUM_WINDOW = 4`, LAR = 7, ACK number 8: `_delta(7, 8) = 1`, yet `_next` only yields 0..7 | ignore an ACK number outside the sequence space as stale | not executed; the receiver of this file never sends such a number | SlidingWindow.StaleAsWrittenAdmitsUnreachableAck | SlidingWindow.Sender.FromNetwork |
| hw2c/ends.py:112 | `last_ack_sent` takes the incoming packet's `ack_num`, which is `None` for every data packet | any data packet | record the ACK just sent, `last_frame_received` | not executed | SlidingWindow.LastAckSentAsWrittenLosesAck | SlidingWindow.Receiver.FromNetwork |
| hw5/entity.py:173 | `del self.neighbor_cost_map` deletes the whole dict, so the next `update` or `add_neighbor` raises AttributeError | entity 0 of 3 with links to 1 (cost 5) and 2 (cost 3), `delete_neighbor(1)`, then an advertisement from 2 | `del self.neighbor_cost_map[neighbor_index]` | not executed | Routing.DeleteNeighborLosesEveryLink | Routing.RemoveLinkKeepsOthers |
| hw7/webserver.py:87-90 | a text file's `length` is `len` of the decoded text, counted in characters, while the body is sent as UTF-8 bytes | `GET /a.html` for a file holding the one character `é`: `Content-Length: 1` followed by 2 body bytes | the number of body bytes sent | not executed | WebServer.ContentLengthCountsCharacters | WebServer.ContentLengthCountsBytes |
| hw7/webserver.py:173-184 | the loop breaks only when `recv` returns nothing and the buffer is empty; an incomplete request left when the client closes makes it loop forever | a client that sends the one byte `G` and closes | end the connection once the client has closed and no complete request is buffered | not executed | WebServer.PartialRequestSpins | WebServer.PartialRequestCloses |

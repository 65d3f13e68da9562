/**
 * The simulated network of hw2c/simulator.py: a `Link` feeds packets from its
 * drop-tail buffer onto the wire one transmission slot at a time, and a
 * `Connection` moves application messages into its sender under
 * back-pressure and checks what the receiver delivers against the messages
 * in flight.
 */
module Network {
  import opened Common
  import opened Packets
  import opened Events
  import opened Buffer

  /** Packets larger than MAXIMUM_SEQUENCE are counted as wrongly numbered (and still sent). */
  predicate WrongSeqNum(maxSeq: nat, p: Packet) {
    p.seqNum.Some? && p.seqNum.value > maxSeq
  }

  /**
   * A link. `_transmit`'s random drop and jitter are taken as inputs: `dropped`
   * says whether the packet is lost, `delay` is the propagation delay drawn
   * for it.
   */
  class Link {
    const sim: Simulator
    const buffer: DropTailBuffer
    const bandwidth: real
    const name: string
    const maxSeq: nat                   // MAXIMUM_SEQUENCE
    var pendingTransmit: Option<Event>  // the armed `transmit_next` timer, if any
    var totalSent: nat
    var maximumBuffer: int
    var wrongSeqNum: nat
    var transmitted: seq<Packet>        // what `_transmit` was handed, in order

    /** The simulator and the buffer are consistent and a transmission time exists. */
    ghost predicate Parts()
      reads this, sim, buffer
    {
      sim.Valid() && buffer.Valid() && bandwidth != 0.0
    }

    /** An idle link (no transmission armed) has nothing waiting in its buffer. */
    ghost predicate Valid()
      reads this, sim, buffer
    {
      Parts() && (pendingTransmit.None? ==> buffer.queue == [])
    }

    constructor (sim: Simulator, buffer: DropTailBuffer, bandwidth: real, name: string, maxSeq: nat)
      requires sim.Valid() && buffer.Valid() && buffer.queue == [] && bandwidth != 0.0
      ensures Valid() && this.sim == sim && this.buffer == buffer
      ensures this.bandwidth == bandwidth && this.name == name && this.maxSeq == maxSeq
      ensures pendingTransmit == None && totalSent == 0 && maximumBuffer == 0 && wrongSeqNum == 0
      ensures transmitted == []
    {
      this.sim := sim;
      this.buffer := buffer;
      this.bandwidth := bandwidth;
      this.name := name;
      this.maxSeq := maxSeq;
      pendingTransmit := None;
      totalSent := 0;
      maximumBuffer := 0;
      wrongSeqNum := 0;
      transmitted := [];
    }

    /** `_transmit`: unless dropped, the packet arrives at its destination `delay` from now. */
    method Transmit(packet: Packet, dropped: bool, delay: real) returns (arrival: Option<Event>)
      requires Parts()
      modifies this, sim
      ensures Parts() && buffer.queue == old(buffer.queue) && transmitted == old(transmitted) + [packet]
      ensures pendingTransmit == old(pendingTransmit) && totalSent == old(totalSent)
      ensures maximumBuffer == old(maximumBuffer) && wrongSeqNum == old(wrongSeqNum)
      ensures dropped <==> arrival == None
      ensures arrival.Some? ==>
        && fresh(arrival.value) && !arrival.value.canceled
        && arrival.value.action == Arrive(packet) && arrival.value.time == old(sim.time) + delay
        && arrival.value.index == old(sim.nextIndex)
      ensures sim.events == InsertSome(old(sim.events), arrival)
      ensures sim.nextIndex == old(sim.nextIndex) + Count(arrival)
      ensures sim.time == old(sim.time) && sim.done == old(sim.done)
    {
      transmitted := transmitted + [packet];
      if !dropped {
        var e := sim.CreateTimer(delay, Arrive(packet), "receiving packet on " + name + " link");
        arrival := Some(e);
      } else {
        arrival := None;
      }
    }

    /**
     * `transmit_next`: an empty buffer makes the link idle; otherwise the
     * oldest packet goes on the wire (its arrival is scheduled unless it is
     * dropped) and then the next slot is armed one transmission time
     * (1/bandwidth) from now.
     */
    method TransmitNext(dropped: bool, delay: real) returns (arrival: Option<Event>)
      requires Parts()
      modifies this, buffer, sim
      ensures Valid()
      ensures old(buffer.queue) == [] ==>
        && pendingTransmit == None && arrival == None && transmitted == old(transmitted)
        && buffer.queue == [] && sim.events == old(sim.events) && sim.nextIndex == old(sim.nextIndex)
      ensures old(buffer.queue) != [] ==>
        && transmitted == old(transmitted) + [old(buffer.queue)[0]]
        && buffer.queue == old(buffer.queue)[1..]
        && (dropped <==> arrival == None)
        && (arrival.Some? ==>
              && fresh(arrival.value) && !arrival.value.canceled
              && arrival.value.action == Arrive(old(buffer.queue)[0])
              && arrival.value.time == old(sim.time) + delay
              && arrival.value.index == old(sim.nextIndex))
        && pendingTransmit.Some? && fresh(pendingTransmit.value) && !pendingTransmit.value.canceled
        && pendingTransmit.value.action == Action.TransmitNext(name)
        && pendingTransmit.value.time == old(sim.time) + 1.0 / bandwidth
        && pendingTransmit.value.index == old(sim.nextIndex) + Count(arrival)
        && sim.events == Insert(InsertSome(old(sim.events), arrival), pendingTransmit.value)
        && sim.nextIndex == old(sim.nextIndex) + Count(arrival) + 1
      ensures buffer.dropCount == old(buffer.dropCount)
      ensures totalSent == old(totalSent) && maximumBuffer == old(maximumBuffer) && wrongSeqNum == old(wrongSeqNum)
      ensures sim.time == old(sim.time) && sim.done == old(sim.done)
    {
      var packet := buffer.Dequeue();
      if packet.Some? {
        arrival := Transmit(packet.value, dropped, delay);
        var e := sim.CreateTimer(1.0 / bandwidth, Action.TransmitNext(name), "dequeue from buffer on " + name + " link");
        pendingTransmit := Some(e);
      } else {
        arrival := None;
        pendingTransmit := None;
      }
    }

    /**
     * `enqueue`: stamps the destination, counts the packet (and a wrongly
     * numbered one), offers it to the buffer, and starts transmitting only
     * if the link was idle; otherwise the scheduler is left untouched.
     */
    method Enqueue(packet: Packet, destination: Endpoint, dropped: bool, delay: real) returns (arrival: Option<Event>)
      requires Valid()
      modifies this, buffer, sim
      ensures Valid()
      ensures totalSent == old(totalSent) + 1
      ensures wrongSeqNum == old(wrongSeqNum) + if WrongSeqNum(maxSeq, packet) then 1 else 0
      ensures sim.time == old(sim.time) && sim.done == old(sim.done)
      ensures var p := packet.(destination := Some(destination));
        var room := |old(buffer.queue)| < buffer.capacity;
        && (room ==> buffer.dropCount == old(buffer.dropCount))
        && (!room ==> buffer.dropCount == old(buffer.dropCount) + 1)
        && maximumBuffer == MaxInt(old(maximumBuffer), |old(buffer.queue)| + if room then 1 else 0)
        && (old(pendingTransmit).Some? || !room ==>
              && arrival == None && transmitted == old(transmitted)
              && sim.events == old(sim.events) && sim.nextIndex == old(sim.nextIndex))
        && (old(pendingTransmit).Some? ==>
              pendingTransmit == old(pendingTransmit) && buffer.queue == old(buffer.queue) + (if room then [p] else []))
        && (old(pendingTransmit).None? && !room ==> pendingTransmit == None && buffer.queue == [])
        && (old(pendingTransmit).None? && room ==>
              && transmitted == old(transmitted) + [p] && buffer.queue == []
              && (dropped <==> arrival == None)
              && (arrival.Some? ==>
                    && fresh(arrival.value) && !arrival.value.canceled && arrival.value.action == Arrive(p)
                    && arrival.value.time == old(sim.time) + delay && arrival.value.index == old(sim.nextIndex))
              && pendingTransmit.Some? && fresh(pendingTransmit.value) && !pendingTransmit.value.canceled
              && pendingTransmit.value.action == Action.TransmitNext(name)
              && pendingTransmit.value.time == old(sim.time) + 1.0 / bandwidth
              && sim.events == Insert(InsertSome(old(sim.events), arrival), pendingTransmit.value)
              && sim.nextIndex == old(sim.nextIndex) + Count(arrival) + 1)
    {
      var p := packet.(destination := Some(destination));
      totalSent := totalSent + 1;
      if WrongSeqNum(maxSeq, p) {
        wrongSeqNum := wrongSeqNum + 1;
      }
      buffer.Enqueue(p);
      var used := buffer.UsedCount();
      maximumBuffer := MaxInt(used, maximumBuffer);
      if pendingTransmit == None {
        arrival := TransmitNext(dropped, delay);
      } else {
        arrival := None;
      }
    }
  }

  /** 1 for an event, 0 for none. */
  function Count(e: Option<Event>): nat {
    if e.Some? then 1 else 0
  }

  /** The heap after pushing the event, if there is one. */
  function InsertSome(q: seq<Event>, e: Option<Event>): (r: seq<Event>)
    ensures |r| == |q| + Count(e)
  {
    if e.Some? then Insert(q, e.value) else q
  }

  /** Python's `max` on integers. */
  function MaxInt(a: int, b: int): (m: int)
    ensures m >= a && m >= b && (m == a || m == b)
  {
    if a >= b then a else b
  }

  // ---------------------------------------------------------------------
  // Connection: back-pressure towards the sender and the in-flight check.
  // ---------------------------------------------------------------------

  /** An entry of the in-flight FIFO: when the message was handed to the sender, and the message. */
  datatype InFlight = InFlight(sentAt: real, message: Message)

  /** How `record_received` classifies a delivered message. */
  datatype Outcome =
    | Excess              // nothing was in flight
    | InOrder             // the oldest message in flight
    | Skipped(count: nat) // a later one; `count` messages before it are given up
    | Corrupt             // none of the messages in flight

  /** The first position of `m` in `s`, if any. */
  function FirstMatch(s: seq<InFlight>, m: Message): (r: Option<nat>)
    ensures r.Some? ==> r.value < |s| && s[r.value].message == m
    ensures r.Some? ==> forall i :: 0 <= i < r.value ==> s[i].message != m
    ensures r.None? ==> forall i :: 0 <= i < |s| ==> s[i].message != m
  {
    if s == [] then None
    else if s[0].message == m then Some(0)
    else match FirstMatch(s[1..], m)
      case Some(j) => Some(j + 1)
      case None => None
  }

  /**
   * The classification of a delivery: the oldest message in flight, else the
   * first later one that matches, counting the messages before it.
   */
  function Classify(inFlight: seq<InFlight>, actual: Message): (o: Outcome)
    ensures o == Excess <==> inFlight == []
    ensures o == InOrder <==> inFlight != [] && inFlight[0].message == actual
    ensures o.Skipped? ==> 1 <= o.count < |inFlight| && inFlight[o.count].message == actual
    ensures o.Skipped? ==> forall i :: 0 <= i < o.count ==> inFlight[i].message != actual
    ensures o == Corrupt <==> inFlight != [] && forall i :: 0 <= i < |inFlight| ==> inFlight[i].message != actual
  {
    if inFlight == [] then Excess
    else if inFlight[0].message == actual then InOrder
    else match FirstMatch(inFlight[1..], actual)
      case Some(j) => Skipped(j + 1)
      case None => Corrupt
  }

  /**
   * The in-flight FIFO after a delivery: everything up to and including the
   * matching message leaves; a corrupt delivery consumes only the oldest.
   */
  function AfterReceipt(inFlight: seq<InFlight>, actual: Message): (rest: seq<InFlight>)
    ensures inFlight == [] ==> rest == []
    ensures inFlight != [] ==> |rest| < |inFlight| && rest == inFlight[|inFlight| - |rest|..]
    ensures Classify(inFlight, actual) == Corrupt ==> |rest| == |inFlight| - 1
    ensures Classify(inFlight, actual) in {InOrder} || Classify(inFlight, actual).Skipped? ==>
      inFlight[|inFlight| - |rest| - 1].message == actual
  {
    match Classify(inFlight, actual)
    case Excess => inFlight
    case InOrder => inFlight[1..]
    case Corrupt => inFlight[1..]
    case Skipped(c) => inFlight[c + 1..]
  }

  /** A matched delivery removes exactly the matched message and those before it. */
  lemma ReceiptDropsPrefix(inFlight: seq<InFlight>, actual: Message)
    requires Classify(inFlight, actual) == InOrder || Classify(inFlight, actual).Skipped?
    ensures var o := Classify(inFlight, actual);
      var skipped := if o.Skipped? then o.count else 0;
      AfterReceipt(inFlight, actual) == inFlight[skipped + 1..]
  {
  }

  /** The messages of in-flight entries. */
  function Messages(s: seq<InFlight>): (ms: seq<Message>)
    ensures |ms| == |s| && forall i :: 0 <= i < |s| ==> ms[i] == s[i].message
  {
    seq(|s|, i requires 0 <= i < |s| => s[i].message)
  }

  /** The in-flight FIFO and the skip and corrupt counts after a run of deliveries. */
  datatype Tally = Tally(rest: seq<InFlight>, skipped: nat, corrupt: nat)

  /** `record_received` applied to each delivered message in turn. */
  function ReceiveAll(inFlight: seq<InFlight>, delivered: seq<Message>): (t: Tally)
    ensures |t.rest| <= |inFlight|
    decreases |delivered|
  {
    if delivered == [] then Tally(inFlight, 0, 0)
    else
      var t := ReceiveAll(inFlight, delivered[..|delivered| - 1]);
      var actual := delivered[|delivered| - 1];
      var o := Classify(t.rest, actual);
      Tally(AfterReceipt(t.rest, actual),
            t.skipped + (if o.Skipped? then o.count else 0),
            t.corrupt + (if o == Excess || o == Corrupt then 1 else 0))
  }

  /**
   * When the receiver delivers the messages in flight exactly in the order
   * they were sent, each delivery consumes one entry and nothing is counted
   * as skipped or corrupt.
   */
  lemma {:induction false} InOrderDeliveryCountsNothing(inFlight: seq<InFlight>, k: nat)
    requires k <= |inFlight|
    ensures ReceiveAll(inFlight, Messages(inFlight[..k])) == Tally(inFlight[k..], 0, 0)
  {
    if k > 0 {
      InOrderDeliveryCountsNothing(inFlight, k - 1);
      assert Messages(inFlight[..k])[..k - 1] == Messages(inFlight[..k - 1]);
      assert inFlight[k - 1..][1..] == inFlight[k..];
    }
  }

  /** Messages handed to the sender at `now`, as in-flight entries. */
  function Stamp(now: real, ms: seq<Message>): (r: seq<InFlight>)
    ensures |r| == |ms| && forall i :: 0 <= i < |ms| ==> r[i] == InFlight(now, ms[i])
  {
    seq(|ms|, i requires 0 <= i < |ms| => InFlight(now, ms[i]))
  }

  /**
   * A connection. The sender's answers to `from_application` are an input:
   * `accept(i)` is its answer to the `i`-th offer in one `send_pending`.
   */
  class Connection {
    const name: string
    const missingIsError: bool
    var totalSent: nat
    var totalReceived: nat
    var pending: seq<Message>
    var inFlight: seq<InFlight>
    var corruptCount: nat
    var skipCount: nat

    constructor (name: string, missingIsError: bool)
      ensures this.name == name && this.missingIsError == missingIsError
      ensures totalSent == 0 && totalReceived == 0 && pending == [] && inFlight == []
      ensures corruptCount == 0 && skipCount == 0
    {
      this.name := name;
      this.missingIsError := missingIsError;
      totalSent := 0;
      totalReceived := 0;
      pending := [];
      inFlight := [];
      corruptCount := 0;
      skipCount := 0;
    }

    /**
     * `send_pending`: offers pending messages to the sender oldest first;
     * each accepted one moves to the tail of the in-flight FIFO; the first
     * refusal stops the loop. `moved` is how many were accepted.
     */
    method SendPending(accept: nat -> bool, now: real) returns (moved: nat)
      modifies this
      ensures moved <= |old(pending)|
      ensures forall i :: 0 <= i < moved ==> accept(i)
      ensures moved < |old(pending)| ==> !accept(moved)
      ensures pending == old(pending)[moved..]
      ensures inFlight == old(inFlight) + Stamp(now, old(pending)[..moved])
      ensures totalSent == old(totalSent) + moved
      ensures totalReceived == old(totalReceived) && corruptCount == old(corruptCount) && skipCount == old(skipCount)
    {
      moved := 0;
      while |pending| > 0
        invariant moved <= |old(pending)| && pending == old(pending)[moved..]
        invariant forall i :: 0 <= i < moved ==> accept(i)
        invariant inFlight == old(inFlight) + Stamp(now, old(pending)[..moved])
        invariant totalSent == old(totalSent) + moved
        invariant totalReceived == old(totalReceived) && corruptCount == old(corruptCount) && skipCount == old(skipCount)
        decreases |pending|
      {
        if accept(moved) {
          var message := pending[0];
          pending := pending[1..];
          totalSent := totalSent + 1;
          assert old(pending)[..moved + 1] == old(pending)[..moved] + [message];
          inFlight := inFlight + [InFlight(now, message)];
          moved := moved + 1;
        } else {
          break;
        }
      }
    }

    /**
     * `record_received`: classifies a delivered message against the
     * in-flight FIFO and counts it as received, skipped past or corrupt.
     */
    method RecordReceived(actual: Message)
      modifies this
      ensures var o := Classify(old(inFlight), actual);
        && inFlight == AfterReceipt(old(inFlight), actual)
        && totalReceived == old(totalReceived) + (if o == Excess then 0 else 1)
        && corruptCount == old(corruptCount) + (if o == Excess || o == Corrupt then 1 else 0)
        && skipCount == old(skipCount) + (if o.Skipped? then o.count else 0)
      ensures totalSent == old(totalSent) && pending == old(pending)
    {
      if |inFlight| == 0 {
        corruptCount := corruptCount + 1;
        return;
      }
      var head := inFlight[0];
      inFlight := inFlight[1..];
      totalReceived := totalReceived + 1;
      if head.message != actual {
        var skip := 1;
        var found := false;
        var i := 0;
        while i < |inFlight|
          invariant 0 <= i <= |inFlight| && skip == i + 1 && !found
          invariant forall j :: 0 <= j < i ==> inFlight[j].message != actual
          decreases |inFlight| - i
        {
          if inFlight[i].message == actual {
            found := true;
            break;
          }
          skip := skip + 1;
          i := i + 1;
        }
        if found {
          inFlight := inFlight[skip..];
          skipCount := skipCount + skip;
        } else {
          corruptCount := corruptCount + 1;
        }
      }
    }
  }
}

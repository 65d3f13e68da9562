/**
 * The stop-and-wait endpoints of hw2/ends.py. In 'one-zero' mode (the
 * alternating-bit protocol) the sender has at most one frame outstanding,
 * tagged with a one-bit sequence number, and resends it on a timer until the
 * matching ACK arrives; the receiver delivers a frame only when its bit
 * differs from the last one it saw, and acknowledges every frame. In
 * 'no-ack' mode both ends just pass packets through.
 */
module StopAndWait {
  import opened Common
  import opened Packets
  import opened Events
  import Timers

  /** `config.MODE`; any mode other than the two below makes the sender accept and drop. */
  datatype Mode = NoAck | OneZero | OtherMode(name: string)

  /** `ACK_PACKET_DATA`: the ASCII bytes of "ACK". */
  const AckData: Bytes := [65, 67, 75]

  /** `INITIAL_SEQ_NUM`. */
  const InitialSeqNum := 0

  /** A frame of the stop-and-wait sender: the message's payload and end mark, tagged with the bit. */
  function Frame(m: Message, bit: int): (p: Packet)
    ensures MessageOf(p) == m && p.seqNum == Some(bit)
  {
    DataPacket(m, bit)
  }

  /** The receiver's acknowledgement: data "ACK", the end mark of the frame, and a sequence number. */
  function AckFor(isEnd: bool, seqNum: Option<int>): (p: Packet)
    ensures p.data == Some(AckData) && p.isEnd == isEnd && p.seqNum == seqNum && p.ackNum == None
  {
    NewPacket().(data := Some(AckData), isEnd := isEnd, seqNum := seqNum)
  }

  /** The text of a sequence number in a timer description, as Python's f-string prints it. */
  function SeqText(seqNum: Option<int>): string {
    if seqNum.Some? && seqNum.value >= 0 then NatToString(seqNum.value)
    else if seqNum.Some? then "-" + NatToString(-seqNum.value)
    else "None"
  }

  /** The bit that message `k` of a stream starting at bit `bit` carries: `bit` flipped `k` times. */
  function BitAt(bit: int, k: nat): (b: int)
    ensures (bit == 0 || bit == 1) ==> (b == 0 || b == 1)
  {
    if k % 2 == 0 then bit else 1 - bit
  }

  /** The stop-and-wait `MySender`. */
  class Sender {
    const mode: Mode
    const timeout: real     // INITIAL_TIMEOUT
    const sim: Simulator
    var seqNum: int         // the bit of the current frame
    var waiting: bool       // a frame is awaiting its ACK
    var resendTimer: Option<Event>
    var sent: seq<Packet>   // what `to_network` was handed, in order
    var readyCalls: nat     // calls of `ready_for_more_from_application`
    ghost var timers: seq<Event>      // every resend timer armed so far, oldest first
    ghost var accepted: seq<Message>  // the messages 'one-zero' mode accepted, oldest first
    ghost var copies: seq<nat>        // how many times each of them was resent

    /**
     * The bit is 0 or 1, and at most one resend timer is live: every timer
     * but the newest has been cancelled, and the newest is the one held.
     */
    ghost predicate Valid()
      reads this, sim, set e | e in timers
    {
      && sim.Valid()
      && (seqNum == 0 || seqNum == 1)
      && (forall i :: 0 <= i < |timers| - 1 ==> timers[i].canceled)
      && resendTimer == (if timers == [] then None else Some(timers[|timers| - 1]))
    }

    /**
     * In 'one-zero' mode the wire carries the alternating-bit stream of the
     * accepted messages: each one, tagged with the initial bit flipped once
     * per earlier message, sent once and then resent `copies` times. While
     * waiting, the frame in progress is the last accepted message and the
     * live timer resends exactly that frame.
     */
    ghost predicate OnWire()
      reads this
    {
      mode == OneZero ==>
        && |copies| == |accepted|
        && sent == Transmissions(accepted, copies, InitialSeqNum)
        && (!waiting ==> seqNum == BitAt(InitialSeqNum, |accepted|))
        && (waiting ==>
              && |accepted| > 0 && seqNum == BitAt(InitialSeqNum, |accepted| - 1)
              && resendTimer.Some?
              && resendTimer.value.action == ResendIfWaiting(Frame(accepted[|accepted| - 1], seqNum)))
    }

    /** `MySender()`: bit 0, not waiting, no timer. */
    constructor (mode: Mode, timeout: real, sim: Simulator)
      requires sim.Valid()
      ensures Valid() && OnWire() && this.mode == mode && this.timeout == timeout && this.sim == sim
      ensures seqNum == InitialSeqNum && !waiting && resendTimer == None
      ensures sent == [] && readyCalls == 0 && timers == [] && accepted == [] && copies == []
    {
      this.mode := mode;
      this.timeout := timeout;
      this.sim := sim;
      seqNum := InitialSeqNum;
      waiting := false;
      resendTimer := None;
      sent := [];
      readyCalls := 0;
      timers := [];
      accepted := [];
      copies := [];
    }

    /**
     * `send_packet`: hands the frame to the network, cancels the previous
     * resend timer and arms a new one for this frame.
     */
    method SendPacket(packet: Packet)
      requires Valid()
      modifies this, sim, if resendTimer.Some? then {resendTimer.value} else {}
      ensures Valid() && sent == old(sent) + [packet]
      ensures old(resendTimer).Some? ==> old(resendTimer).value.canceled
      ensures resendTimer.Some? && fresh(resendTimer.value) && !resendTimer.value.canceled
      ensures resendTimer.value.action == ResendIfWaiting(packet)
      ensures resendTimer.value.time == old(sim.time) + timeout
      ensures resendTimer.value.description == "resend " + SeqText(packet.seqNum)
      ensures resendTimer.value.index == old(sim.nextIndex) && sim.nextIndex == old(sim.nextIndex) + 1
      ensures sim.events == Insert(old(sim.events), resendTimer.value)
      ensures timers == old(timers) + [resendTimer.value]
      ensures seqNum == old(seqNum) && waiting == old(waiting) && readyCalls == old(readyCalls)
      ensures accepted == old(accepted) && copies == old(copies)
      ensures sim.time == old(sim.time) && sim.done == old(sim.done)
    {
      sent := sent + [packet];
      if resendTimer.Some? {
        Timers.CancelTimer(resendTimer.value);
      }
      var e := Timers.CreateTimer(sim, timeout, ResendIfWaiting(packet), Some("resend " + SeqText(packet.seqNum)), "");
      resendTimer := Some(e);
      timers := timers + [e];
    }

    /**
     * `from_application`: 'no-ack' sends the frame and accepts; 'one-zero'
     * refuses while waiting and otherwise sends the frame, arms its resend
     * timer and starts waiting; any other mode accepts without sending.
     */
    method FromApplication(message: Message) returns (accepted': bool)
      requires Valid()
      modifies this, sim, if resendTimer.Some? then {resendTimer.value} else {}
      ensures Valid() && seqNum == old(seqNum) && readyCalls == old(readyCalls)
      ensures old(OnWire()) ==> OnWire()
      ensures accepted' <==> !(mode == OneZero && old(waiting))
      ensures mode == NoAck ==> sent == old(sent) + [Frame(message, old(seqNum))]
      ensures mode == OneZero && !old(waiting) ==>
        && sent == old(sent) + [Frame(message, old(seqNum))] && waiting
        && accepted == old(accepted) + [message] && copies == old(copies) + [0]
        && (old(resendTimer).Some? ==> old(resendTimer).value.canceled)
        && resendTimer.Some? && fresh(resendTimer.value) && !resendTimer.value.canceled
        && resendTimer.value.action == ResendIfWaiting(Frame(message, old(seqNum)))
        && resendTimer.value.time == old(sim.time) + timeout
        && resendTimer.value.index == old(sim.nextIndex) && sim.nextIndex == old(sim.nextIndex) + 1
        && sim.events == Insert(old(sim.events), resendTimer.value)
        && timers == old(timers) + [resendTimer.value]
      ensures mode != OneZero || old(waiting) ==>
        && waiting == old(waiting) && timers == old(timers) && resendTimer == old(resendTimer)
        && accepted == old(accepted) && copies == old(copies)
        && sim.events == old(sim.events) && sim.nextIndex == old(sim.nextIndex)
      ensures (mode == OneZero && old(waiting)) || mode.OtherMode? ==> sent == old(sent)
      ensures sim.time == old(sim.time) && sim.done == old(sim.done)
    {
      var packet := Frame(message, seqNum);
      match mode {
        case NoAck =>
          sent := sent + [packet];
        case OneZero =>
          if waiting {
            return false;
          }
          if OnWire() {
            TransmissionsSnoc(accepted, copies, InitialSeqNum, message, 0);
          }
          SendPacket(packet);
          waiting := true;
          accepted := accepted + [message];
          copies := copies + [0];
        case OtherMode(_) =>
      }
      accepted' := true;
    }

    /**
     * `from_network`: only an "ACK" packet counts, and in 'one-zero' mode
     * only one carrying the current bit; it ends the wait, flips the bit and
     * asks the application for more. The source takes such an ACK even when
     * it is not waiting; the wire then no longer follows `OnWire`, so that
     * is kept only when a matching ACK ends a wait.
     */
    method FromNetwork(packet: Packet)
      requires Valid()
      modifies this
      ensures Valid() && sent == old(sent) && timers == old(timers) && resendTimer == old(resendTimer)
      ensures accepted == old(accepted) && copies == old(copies)
      ensures var matching := packet.data == Some(AckData) && mode == OneZero && packet.seqNum == Some(old(seqNum));
        && (matching ==> !waiting && seqNum == 1 - old(seqNum) && readyCalls == old(readyCalls) + 1)
        && (!matching ==> waiting == old(waiting) && seqNum == old(seqNum) && readyCalls == old(readyCalls))
        && (old(OnWire()) && (old(waiting) || !matching) ==> OnWire())
    {
      if packet.data != Some(AckData) {
        return;
      }
      if mode == OneZero {
        if packet.seqNum != Some(seqNum) {
          return;
        }
        waiting := false;
        seqNum := 1 - seqNum;
        readyCalls := readyCalls + 1;
      }
    }

    /**
     * `resend_packet`, run by a resend timer that fired (so was not
     * cancelled): sends the timer's frame again only while still waiting.
     * Only the newest timer can be live, so the frame resent is the one in
     * progress.
     */
    method ResendPacket(timer: Event)
      requires Valid() && timer in timers && !timer.canceled && timer.action.ResendIfWaiting?
      modifies this, sim, if resendTimer.Some? then {resendTimer.value} else {}
      ensures Valid() && waiting == old(waiting) && seqNum == old(seqNum) && readyCalls == old(readyCalls)
      ensures old(OnWire()) ==> OnWire()
      ensures !old(waiting) ==>
        && sent == old(sent) && timers == old(timers) && resendTimer == old(resendTimer)
        && accepted == old(accepted) && copies == old(copies) && !timer.canceled
        && sim.events == old(sim.events) && sim.nextIndex == old(sim.nextIndex)
      ensures old(waiting) ==>
        && old(resendTimer) == Some(timer) && timer.canceled
        && sent == old(sent) + [timer.action.packet]
        && resendTimer.Some? && fresh(resendTimer.value) && !resendTimer.value.canceled
        && resendTimer.value.action == timer.action
        && resendTimer.value.time == old(sim.time) + timeout
        && resendTimer.value.index == old(sim.nextIndex) && sim.nextIndex == old(sim.nextIndex) + 1
        && sim.events == Insert(old(sim.events), resendTimer.value)
        && timers == old(timers) + [resendTimer.value]
      ensures old(waiting) && old(OnWire()) && mode == OneZero ==>
        && timer.action.packet == Frame(accepted[|accepted| - 1], seqNum)
        && accepted == old(accepted) && |copies| == |old(copies)|
        && copies == old(copies)[|copies| - 1 := old(copies)[|copies| - 1] + 1]
      ensures sim.time == old(sim.time) && sim.done == old(sim.done)
    {
      var packet := timer.action.packet;
      if !waiting {
        return;
      }
      assert timer == timers[|timers| - 1];
      if mode == OneZero && OnWire() {
        var n := |accepted| - 1;
        TransmissionsResend(accepted, copies, InitialSeqNum);
        copies := copies[n := copies[n] + 1];
      }
      SendPacket(packet);
    }
  }

  /** What a 'one-zero' sender has put on the wire is delivered, by a fresh receiver reading it in order, as exactly the messages it accepted. */
  lemma WireDeliversAccepted(s: Sender)
    requires s.mode == OneZero && s.OnWire()
    ensures Delivered(None, s.sent) == s.accepted
  {
    FromStartDeliversOnce(s.accepted, s.copies);
  }

  // ---------------------------------------------------------------------
  // The receiver and the alternating-bit guarantee.
  // ---------------------------------------------------------------------

  /**
   * What the 'one-zero' receiver delivers from a stream of frames when the
   * last sequence number it recorded is `last`: a frame is delivered when
   * its number differs from the last one recorded, and then recorded.
   */
  function Delivered(last: Option<int>, stream: seq<Packet>): (ms: seq<Message>)
    ensures |ms| <= |stream|
    decreases |stream|
  {
    if stream == [] then []
    else if stream[0].seqNum != last then [MessageOf(stream[0])] + Delivered(stream[0].seqNum, stream[1..])
    else Delivered(last, stream[1..])
  }

  /** `c` copies of `p`: a frame sent and then resent. */
  function Copies(p: Packet, c: nat): (s: seq<Packet>)
    ensures |s| == c && forall i :: 0 <= i < c ==> s[i] == p
  {
    seq(c, _ => p)
  }

  /**
   * What an alternating-bit sender puts on the wire for `msgs` when every
   * loss is repaired by resending: message `i` goes out `copies[i] + 1`
   * times, tagged with bit `bit` flipped `i` times.
   */
  function Transmissions(msgs: seq<Message>, copies: seq<nat>, bit: int): (s: seq<Packet>)
    requires |copies| == |msgs|
    ensures |s| >= |msgs|
  {
    if msgs == [] then []
    else Copies(Frame(msgs[0], bit), copies[0] + 1) + Transmissions(msgs[1..], copies[1..], 1 - bit)
  }

  /** One more message on the stream: it goes out `c + 1` times with the bit flipped once per earlier message. */
  lemma {:induction false} TransmissionsSnoc(msgs: seq<Message>, copies: seq<nat>, bit: int, m: Message, c: nat)
    requires |copies| == |msgs|
    ensures Transmissions(msgs + [m], copies + [c], bit) == Transmissions(msgs, copies, bit) + Copies(Frame(m, BitAt(bit, |msgs|)), c + 1)
    decreases |msgs|
  {
    if msgs == [] {
      assert (msgs + [m])[1..] == [] && (copies + [c])[1..] == [];
    } else {
      assert (msgs + [m])[1..] == msgs[1..] + [m];
      assert (copies + [c])[1..] == copies[1..] + [c];
      TransmissionsSnoc(msgs[1..], copies[1..], 1 - bit, m, c);
      assert BitAt(1 - bit, |msgs| - 1) == BitAt(bit, |msgs|);
    }
  }

  /** Resending the last message appends one more copy of its frame. */
  lemma TransmissionsResend(msgs: seq<Message>, copies: seq<nat>, bit: int)
    requires |copies| == |msgs| > 0
    ensures var n := |msgs| - 1;
      Transmissions(msgs, copies[n := copies[n] + 1], bit) == Transmissions(msgs, copies, bit) + [Frame(msgs[n], BitAt(bit, n))]
  {
    var n := |msgs| - 1;
    var p := Frame(msgs[n], BitAt(bit, n));
    assert msgs == msgs[..n] + [msgs[n]];
    assert copies == copies[..n] + [copies[n]];
    assert copies[n := copies[n] + 1] == copies[..n] + [copies[n] + 1];
    TransmissionsSnoc(msgs[..n], copies[..n], bit, msgs[n], copies[n]);
    TransmissionsSnoc(msgs[..n], copies[..n], bit, msgs[n], copies[n] + 1);
    assert Copies(p, copies[n] + 2) == Copies(p, copies[n] + 1) + [p];
  }

  /** Repeated copies of the frame just recorded are not delivered again. */
  lemma {:induction false} DuplicatesSkipped(p: Packet, c: nat, rest: seq<Packet>)
    ensures Delivered(p.seqNum, Copies(p, c) + rest) == Delivered(p.seqNum, rest)
    decreases c
  {
    var s := Copies(p, c) + rest;
    if c > 0 {
      assert s[0] == p && s[1..] == Copies(p, c - 1) + rest;
      DuplicatesSkipped(p, c - 1, rest);
    } else {
      assert s == rest;
    }
  }

  /**
   * The alternating-bit guarantee: however many times each frame is resent,
   * a receiver whose last recorded number differs from the first bit
   * delivers every message exactly once, in order.
   */
  lemma {:induction false} AlternatingBitDeliversOnce(msgs: seq<Message>, copies: seq<nat>, bit: int, last: Option<int>)
    requires |copies| == |msgs| && (bit == 0 || bit == 1) && last != Some(bit)
    ensures Delivered(last, Transmissions(msgs, copies, bit)) == msgs
    decreases |msgs|
  {
    if msgs != [] {
      var p := Frame(msgs[0], bit);
      var rest := Transmissions(msgs[1..], copies[1..], 1 - bit);
      var s := Copies(p, copies[0] + 1) + rest;
      assert s[0] == p && s[1..] == Copies(p, copies[0]) + rest;
      DuplicatesSkipped(p, copies[0], rest);
      AlternatingBitDeliversOnce(msgs[1..], copies[1..], 1 - bit, Some(bit));
      assert msgs == [msgs[0]] + msgs[1..];
    }
  }

  /** The initial receiver (nothing recorded) and the initial sender bit satisfy the guarantee's precondition. */
  lemma FromStartDeliversOnce(msgs: seq<Message>, copies: seq<nat>)
    requires |copies| == |msgs|
    ensures Delivered(None, Transmissions(msgs, copies, InitialSeqNum)) == msgs
  {
    AlternatingBitDeliversOnce(msgs, copies, InitialSeqNum, None);
  }

  /** The stop-and-wait `MyReceiver`. */
  class Receiver {
    const mode: Mode
    var seqNum: int               // flipped on every new frame, otherwise unused
    var lastSeqNum: Option<int>   // number of the last frame delivered
    var delivered: seq<Message>   // what `to_application` was handed, in order
    var acks: seq<Packet>         // what `to_network` was handed, in order

    /** `MyReceiver()`: nothing recorded yet. */
    constructor (mode: Mode)
      ensures this.mode == mode && seqNum == InitialSeqNum && lastSeqNum == None
      ensures delivered == [] && acks == []
    {
      this.mode := mode;
      seqNum := InitialSeqNum;
      lastSeqNum := None;
      delivered := [];
      acks := [];
    }

    /**
     * `from_network`: 'no-ack' delivers every frame; 'one-zero' delivers a
     * frame whose number differs from the last one recorded, records it, and
     * acknowledges every frame with the number recorded; other modes do
     * nothing.
     */
    method FromNetwork(packet: Packet)
      modifies this
      ensures mode == NoAck ==> delivered == old(delivered) + [MessageOf(packet)] && acks == old(acks)
      ensures mode == OneZero ==>
        && delivered == old(delivered) + Delivered(old(lastSeqNum), [packet])
        && lastSeqNum == packet.seqNum
        && acks == old(acks) + [AckFor(packet.isEnd, packet.seqNum)]
      ensures mode == OneZero && packet.seqNum != old(lastSeqNum) ==> seqNum == 1 - old(seqNum)
      ensures mode.OtherMode? ==> delivered == old(delivered) && acks == old(acks)
      ensures mode != OneZero ==> lastSeqNum == old(lastSeqNum)
    {
      var message := MessageOf(packet);
      match mode {
        case NoAck =>
          delivered := delivered + [message];
        case OneZero =>
          if packet.seqNum != lastSeqNum {
            delivered := delivered + [message];
            lastSeqNum := packet.seqNum;
            seqNum := 1 - seqNum;
            SendAck(packet.isEnd, packet.seqNum);
          } else {
            SendAck(packet.isEnd, lastSeqNum);
          }
        case OtherMode(_) =>
      }
    }

    /** `send_ack`: an "ACK" packet with the given end mark and number goes to the network. */
    method SendAck(isEnd: bool, seqNum: Option<int>)
      modifies this
      ensures acks == old(acks) + [AckFor(isEnd, seqNum)]
      ensures delivered == old(delivered) && lastSeqNum == old(lastSeqNum) && this.seqNum == old(this.seqNum)
    {
      acks := acks + [AckFor(isEnd, seqNum)];
    }
  }
}

/**
 * The sliding-window protocol of hw2c/ends.py. On the sending side LAR
 * (last ACK received) and LFS (last frame sent) bound the frames in flight;
 * every frame in flight sits in `queue` with its retransmission timer until
 * a cumulative ACK covers it. On the receiving side LFR (last frame
 * received) is the last frame handed to the application; frames that arrive
 * ahead of it wait in a buffer until the gap before them is filled.
 */
module SlidingWindow {
  import opened Common
  import opened Packets
  import opened SeqNum
  import opened Events
  import Timers

  // ---------------------------------------------------------------------
  // The window as values: the two edges and the numbers in flight.
  // ---------------------------------------------------------------------

  /** What the sender's state says about the window. */
  datatype WindowView = WindowView(lar: int, lfs: int, outstanding: set<int>)

  /** `k` has been sent and not yet acknowledged: it lies in (LAR, LFS]. */
  predicate Outstanding(maxSeq: nat, lar: int, lfs: int, k: int) {
    InRange(maxSeq, k) && 1 <= Delta(maxSeq, lar, k) <= Delta(maxSeq, lar, lfs)
  }

  /** `k` is covered by a cumulative ACK of `ack` received while LAR was `lar`: it lies in (lar, ack]. */
  predicate Covered(maxSeq: nat, lar: int, ack: int, k: int) {
    1 <= Delta(maxSeq, lar, k) <= Delta(maxSeq, lar, ack)
  }

  /**
   * The window invariant: both edges are sequence numbers, no more than
   * `windowSize` frames are in flight, and the numbers in flight are exactly
   * those in (LAR, LFS].
   */
  ghost predicate WindowOk(maxSeq: nat, windowSize: int, v: WindowView) {
    && InRange(maxSeq, v.lar) && InRange(maxSeq, v.lfs)
    && Delta(maxSeq, v.lar, v.lfs) <= windowSize
    && forall k :: k in v.outstanding <==> Outstanding(maxSeq, v.lar, v.lfs, k)
  }

  /** The state both edges start in (`MAXIMUM_SEQUENCE`) with nothing in flight. */
  function InitialView(maxSeq: nat): (v: WindowView)
    ensures WindowOk(maxSeq, 0, v)
  {
    WindowView(maxSeq, maxSeq, {})
  }

  /** `from_application` accepts a message exactly when fewer than `windowSize` frames are in flight. */
  predicate CanSend(maxSeq: nat, windowSize: int, v: WindowView) {
    Delta(maxSeq, v.lar, v.lfs) < windowSize
  }

  /** An accepted message goes out as the frame after LFS. */
  function AfterSend(maxSeq: nat, v: WindowView): (w: WindowView)
    ensures w.lar == v.lar && w.lfs == Next(maxSeq, v.lfs)
    ensures w.outstanding == v.outstanding + {w.lfs}
  {
    WindowView(v.lar, Next(maxSeq, v.lfs), v.outstanding + {Next(maxSeq, v.lfs)})
  }

  /**
   * An ACK the sender ignores. The distance check is the source's; an ACK
   * number outside the sequence space is ignored too (see `StaleAsWritten`).
   */
  predicate IsStale(maxSeq: nat, maxWindow: int, lar: int, ack: int) {
    !InRange(maxSeq, ack) || Delta(maxSeq, lar, ack) > maxWindow
  }

  /** The source's own test for an old ACK: the distance check alone. */
  predicate StaleAsWritten(maxSeq: nat, maxWindow: int, lar: int, ack: int) {
    Delta(maxSeq, lar, ack) > maxWindow
  }

  /** The window after an ACK: a stale one changes nothing, any other moves LAR to it and retires (LAR, ack]. */
  function AfterAck(maxSeq: nat, maxWindow: int, v: WindowView, ack: int): (w: WindowView)
    ensures IsStale(maxSeq, maxWindow, v.lar, ack) ==> w == v
    ensures !IsStale(maxSeq, maxWindow, v.lar, ack) ==>
      && w.lar == ack && w.lfs == v.lfs
      && forall k :: k in w.outstanding <==> k in v.outstanding && !Covered(maxSeq, v.lar, ack, k)
  {
    if IsStale(maxSeq, maxWindow, v.lar, ack) then v
    else WindowView(ack, v.lfs, set k | k in v.outstanding && !Covered(maxSeq, v.lar, ack, k))
  }

  /** The first frame from the initial state is numbered 0. */
  lemma FirstFrameIsZero(maxSeq: nat, windowSize: int)
    requires windowSize >= 1
    ensures CanSend(maxSeq, windowSize, InitialView(maxSeq))
    ensures AfterSend(maxSeq, InitialView(maxSeq)).lfs == 0
  {
  }

  /** Sending keeps the window invariant, as long as the window fits in the sequence space. */
  lemma {:induction false} SendKeepsWindow(maxSeq: nat, windowSize: int, v: WindowView)
    requires WindowOk(maxSeq, windowSize, v) && CanSend(maxSeq, windowSize, v)
    requires windowSize <= maxSeq
    ensures WindowOk(maxSeq, windowSize, AfterSend(maxSeq, v))
    ensures Delta(maxSeq, v.lar, Next(maxSeq, v.lfs)) == Delta(maxSeq, v.lar, v.lfs) + 1
    ensures Next(maxSeq, v.lfs) !in v.outstanding
  {
    var w := AfterSend(maxSeq, v);
    var d := Delta(maxSeq, v.lar, v.lfs);
    DeltaToNextOf(maxSeq, v.lar, v.lfs);
    forall k
      ensures k in w.outstanding <==> Outstanding(maxSeq, w.lar, w.lfs, k)
    {
      if InRange(maxSeq, k) && Delta(maxSeq, v.lar, k) == d + 1 {
        DeltaInjective(maxSeq, v.lar, k, w.lfs);
      }
    }
  }

  /**
   * An ACK keeps the window invariant when it is stale or lies in
   * [LAR, LFS]; the code does not check the second condition.
   */
  lemma {:induction false} AckKeepsWindow(maxSeq: nat, maxWindow: int, windowSize: int, v: WindowView, ack: int)
    requires WindowOk(maxSeq, windowSize, v)
    requires IsStale(maxSeq, maxWindow, v.lar, ack) || Delta(maxSeq, v.lar, ack) <= Delta(maxSeq, v.lar, v.lfs)
    ensures WindowOk(maxSeq, windowSize, AfterAck(maxSeq, maxWindow, v, ack))
    ensures !IsStale(maxSeq, maxWindow, v.lar, ack) ==>
      Delta(maxSeq, ack, v.lfs) == Delta(maxSeq, v.lar, v.lfs) - Delta(maxSeq, v.lar, ack)
  {
    if !IsStale(maxSeq, maxWindow, v.lar, ack) {
      var w := AfterAck(maxSeq, maxWindow, v, ack);
      var d := Delta(maxSeq, v.lar, ack);
      DeltaSub(maxSeq, v.lar, ack, v.lfs);
      forall k
        ensures k in w.outstanding <==> Outstanding(maxSeq, ack, v.lfs, k)
      {
        if InRange(maxSeq, k) {
          if d <= Delta(maxSeq, v.lar, k) {
            DeltaSub(maxSeq, v.lar, ack, k);
          } else if Delta(maxSeq, v.lar, ack) + Delta(maxSeq, ack, k) <= maxSeq {
            DeltaAdd(maxSeq, v.lar, ack, k);
          }
        }
      }
    }
  }

  /** Receiving the same ACK twice has the effect of receiving it once. */
  lemma AckIdempotent(maxSeq: nat, maxWindow: int, v: WindowView, ack: int)
    requires maxWindow >= 0
    ensures AfterAck(maxSeq, maxWindow, AfterAck(maxSeq, maxWindow, v, ack), ack)
         == AfterAck(maxSeq, maxWindow, v, ack)
  {
    var w := AfterAck(maxSeq, maxWindow, v, ack);
    if !IsStale(maxSeq, maxWindow, v.lar, ack) {
      assert Delta(maxSeq, ack, ack) == 0;
      assert AfterAck(maxSeq, maxWindow, w, ack).outstanding == w.outstanding;
    }
  }

  /** An ACK of LAR itself (a repeated ACK) changes nothing. */
  lemma RepeatedAckIsNoop(maxSeq: nat, maxWindow: int, v: WindowView)
    requires InRange(maxSeq, v.lar) && maxWindow >= 0
    ensures AfterAck(maxSeq, maxWindow, v, v.lar) == v
  {
    assert Delta(maxSeq, v.lar, v.lar) == 0;
    assert AfterAck(maxSeq, maxWindow, v, v.lar).outstanding == v.outstanding;
  }

  /**
   * The source's guard lets through an ACK number one whole turn of the
   * sequence space past `_next(LAR)`; LAR then never becomes equal to it,
   * since every number `_next` reaches is in range, so the loop at
   * hw2c/ends.py:71 does not end. The corrected guard ignores that ACK.
   */
  lemma StaleAsWrittenAdmitsUnreachableAck(maxSeq: nat, maxWindow: int, lar: int)
    requires InRange(maxSeq, lar) && maxSeq >= 1 && maxWindow >= 1
    ensures var ack := Next(maxSeq, lar) + maxSeq + 1;
      && !StaleAsWritten(maxSeq, maxWindow, lar, ack)
      && (forall k: nat :: Advance(maxSeq, lar, k) != ack)
      && IsStale(maxSeq, maxWindow, lar, ack)
  {
    var m := maxSeq + 1;
    if lar < maxSeq {
      ModUnique(1 + 2 * m, m, 2, 1);
    } else {
      ModUnique(1 + m, m, 1, 1);
    }
  }

  // ---------------------------------------------------------------------
  // The sender object (`MySender`).
  // ---------------------------------------------------------------------

  /** A frame in flight and its retransmission timer (`SendPacketInfo`). */
  datatype SendInfo = SendInfo(packet: Packet, timer: Event)

  /** The table after a cumulative ACK of `ack` received while LAR was `lar`: the entries it covers are gone. */
  function Retire(maxSeq: nat, q: map<int, SendInfo>, lar: int, ack: int): (r: map<int, SendInfo>)
    ensures forall k :: k in r <==> k in q && !Covered(maxSeq, lar, ack, k)
    ensures forall k :: k in r ==> r[k] == q[k]
  {
    map k | k in q && !Covered(maxSeq, lar, ack, k) :: q[k]
  }

  /** Each step of the ACK loop retires exactly the entry of the number LAR moves to. */
  lemma RetireStep(maxSeq: nat, q: map<int, SendInfo>, lar0: int, lar: int, ack: int)
    requires KeysInRange(maxSeq, q)
    requires InRange(maxSeq, lar0) && InRange(maxSeq, lar) && InRange(maxSeq, ack) && lar != ack
    requires Delta(maxSeq, lar0, lar) + Delta(maxSeq, lar, ack) == Delta(maxSeq, lar0, ack)
    ensures Retire(maxSeq, q, lar0, Next(maxSeq, lar)) == Retire(maxSeq, q, lar0, lar) - {Next(maxSeq, lar)}
  {
    AckLoopStep(maxSeq, lar0, lar, ack);
    var r := Retire(maxSeq, q, lar0, Next(maxSeq, lar));
    assert r.Keys == (Retire(maxSeq, q, lar0, lar) - {Next(maxSeq, lar)}).Keys;
  }

  /** Every frame in the table is numbered in the sequence space. */
  predicate KeysInRange(maxSeq: nat, q: map<int, SendInfo>) {
    forall k :: k in q ==> InRange(maxSeq, k)
  }

  /** No two frames share a timer. */
  predicate DistinctTimers(q: map<int, SendInfo>) {
    forall a, b :: a in q && b in q && a != b ==> q[a].timer != q[b].timer
  }

  /** The timers of the frames a cumulative ACK of `ack` covers while LAR is `lar`. */
  function CoveredTimers(maxSeq: nat, q: map<int, SendInfo>, lar: int, ack: int): set<Event> {
    set k | k in q && Covered(maxSeq, lar, ack, k) :: q[k].timer
  }

  /** The timer of frame `n`, if the table has one. */
  function TimersAt(q: map<int, SendInfo>, n: int): set<Event> {
    if n in q then {q[n].timer} else {}
  }

  /** The call site `_do_send_packet`'s timer description is synthesised from. */
  const ResendSite := "ends.py line 42 (in _do_send_packet)"

  class Sender {
    const maxSeq: nat        // MAXIMUM_SEQUENCE
    const maxWindow: int     // MAXIMUM_WINDOW
    const timeout: real      // INITIAL_TIMEOUT
    const sim: Simulator
    var windowSize: int
    var lastFrameSent: int
    var lastAckReceived: int
    var queue: map<int, SendInfo>
    var sent: seq<Packet>    // what `to_network` was handed, in order
    var readyCalls: nat      // calls of `ready_for_more_from_application`

    /** The window this sender's fields describe. */
    function View(): (v: WindowView)
      reads this
      ensures v.lar == lastAckReceived && v.lfs == lastFrameSent && v.outstanding == queue.Keys
    {
      WindowView(lastAckReceived, lastFrameSent, queue.Keys)
    }

    /** Edges are sequence numbers; each table entry holds the frame of its own number and a timer of its own. */
    ghost predicate Valid()
      reads this, sim
    {
      && sim.Valid()
      && InRange(maxSeq, lastFrameSent) && InRange(maxSeq, lastAckReceived)
      && KeysInRange(maxSeq, queue) && (forall k :: k in queue ==> queue[k].packet.seqNum == Some(k))
      && DistinctTimers(queue)
    }

    /** `MySender()`: both edges at MAXIMUM_SEQUENCE, nothing in flight. */
    constructor (maxSeq: nat, maxWindow: int, initialWindow: int, timeout: real, sim: Simulator)
      requires sim.Valid()
      ensures Valid() && View() == InitialView(maxSeq)
      ensures this.maxSeq == maxSeq && this.maxWindow == maxWindow && this.timeout == timeout
      ensures this.sim == sim && windowSize == initialWindow
      ensures sent == [] && readyCalls == 0
    {
      this.maxSeq := maxSeq;
      this.maxWindow := maxWindow;
      this.timeout := timeout;
      this.sim := sim;
      windowSize := initialWindow;
      lastFrameSent := maxSeq;
      lastAckReceived := maxSeq;
      queue := map[];
      sent := [];
      readyCalls := 0;
    }

    /**
     * `_do_send_packet`: hands the frame to the network and (re)arms its
     * retransmission timer, replacing the table entry for its number. The
     * timer's action is this same call for the same packet.
     */
    method DoSendPacket(packet: Packet) returns (timer: Event)
      requires Valid() && packet.seqNum.Some? && InRange(maxSeq, packet.seqNum.value)
      modifies this, sim
      ensures Valid() && fresh(timer) && !timer.canceled
      ensures sent == old(sent) + [packet]
      ensures queue == old(queue)[packet.seqNum.value := SendInfo(packet, timer)]
      ensures timer.time == old(sim.time) + timeout && timer.action == Resend(packet)
      ensures timer.description == Timers.DefaultDescription(ResendSite)
      ensures sim.events == Insert(old(sim.events), timer) && sim.time == old(sim.time)
      ensures lastFrameSent == old(lastFrameSent) && lastAckReceived == old(lastAckReceived)
      ensures windowSize == old(windowSize) && readyCalls == old(readyCalls)
    {
      sent := sent + [packet];
      timer := Timers.CreateTimer(sim, timeout, Resend(packet), None, ResendSite);
      queue := queue[packet.seqNum.value := SendInfo(packet, timer)];
    }

    /**
     * `from_application`: refuses, changing nothing, when the window is
     * full; otherwise numbers the message `_next(LFS)`, sends it and
     * records it with a fresh timer.
     */
    method FromApplication(message: Message) returns (accepted: bool)
      requires Valid()
      modifies this, sim
      ensures Valid()
      ensures accepted == CanSend(maxSeq, windowSize, old(View()))
      ensures !accepted ==> unchanged(this) && unchanged(sim)
      ensures accepted ==> View() == AfterSend(maxSeq, old(View()))
      ensures accepted ==>
        && sent == old(sent) + [DataPacket(message, lastFrameSent)]
        && queue == old(queue)[lastFrameSent := queue[lastFrameSent]]
        && queue[lastFrameSent].packet == DataPacket(message, lastFrameSent)
        && fresh(queue[lastFrameSent].timer)
        && sim.events == Insert(old(sim.events), queue[lastFrameSent].timer)
      ensures windowSize == old(windowSize) && readyCalls == old(readyCalls)
    {
      var missing := Delta(maxSeq, lastAckReceived, lastFrameSent);
      if missing >= windowSize {
        return false;
      }
      var packet := DataPacket(message, Next(maxSeq, lastFrameSent));
      lastFrameSent := Next(maxSeq, lastFrameSent);
      var _ := DoSendPacket(packet);
      accepted := true;
    }

    /**
     * The loop of `from_network`: LAR steps up to `ack` one number at a
     * time; each frame it passes is dropped from the table and its timer
     * cancelled. Nothing else changes.
     */
    method AdvanceLar(ack: int)
      requires InRange(maxSeq, lastAckReceived) && InRange(maxSeq, ack) && KeysInRange(maxSeq, queue)
      modifies this, CoveredTimers(maxSeq, queue, lastAckReceived, ack)
      ensures lastAckReceived == ack
      ensures queue == Retire(maxSeq, old(queue), old(lastAckReceived), ack)
      ensures forall k :: k in old(queue) && Covered(maxSeq, old(lastAckReceived), ack, k) ==> old(queue)[k].timer.canceled
      ensures lastFrameSent == old(lastFrameSent) && sent == old(sent)
      ensures windowSize == old(windowSize) && readyCalls == old(readyCalls)
    {
      ghost var lar0, q0 := lastAckReceived, queue;
      assert queue == Retire(maxSeq, q0, lar0, lar0);
      while lastAckReceived != ack
        invariant InRange(maxSeq, lastAckReceived) && lastFrameSent == old(lastFrameSent)
        invariant sent == old(sent) && windowSize == old(windowSize) && readyCalls == old(readyCalls)
        invariant Delta(maxSeq, lar0, lastAckReceived) + Delta(maxSeq, lastAckReceived, ack) == Delta(maxSeq, lar0, ack)
        invariant queue == Retire(maxSeq, q0, lar0, lastAckReceived)
        invariant forall k :: k in q0 && Covered(maxSeq, lar0, lastAckReceived, k) ==> q0[k].timer.canceled
        decreases Delta(maxSeq, lastAckReceived, ack)
      {
        ghost var n := Next(maxSeq, lastAckReceived);
        AckLoopStep(maxSeq, lar0, lastAckReceived, ack);
        RetireStep(maxSeq, q0, lar0, lastAckReceived, ack);
        assert n in queue ==> q0[n].timer in CoveredTimers(maxSeq, q0, lar0, ack);
        MarkNextDone();
      }
    }

    /**
     * One pass of that loop: LAR becomes `_next(LAR)`, and the frame of that
     * number, if the table has it, is dropped and its timer cancelled.
     */
    method MarkNextDone()
      modifies this, TimersAt(queue, Next(maxSeq, lastAckReceived))
      ensures lastAckReceived == Next(maxSeq, old(lastAckReceived))
      ensures queue == old(queue) - {lastAckReceived}
      ensures lastAckReceived in old(queue) ==> old(queue)[lastAckReceived].timer.canceled
      ensures lastFrameSent == old(lastFrameSent) && sent == old(sent)
      ensures windowSize == old(windowSize) && readyCalls == old(readyCalls)
    {
      lastAckReceived := Next(maxSeq, lastAckReceived);
      if lastAckReceived in queue {
        var item := queue[lastAckReceived];
        queue := queue - {lastAckReceived};
        Timers.CancelTimer(item.timer);
      }
    }

    /**
     * `from_network`: an ACK that is not stale moves LAR up to it (see
     * `AdvanceLar`); then, whatever the ACK was, the application is asked
     * for more if the window has room.
     */
    method FromNetwork(packet: Packet)
      requires Valid() && packet.ackNum.Some?
      modifies this, CoveredTimers(maxSeq, queue, lastAckReceived, packet.ackNum.value)
      ensures Valid()
      ensures View() == AfterAck(maxSeq, maxWindow, old(View()), packet.ackNum.value)
      ensures forall k :: k in queue ==> queue[k] == old(queue)[k]
      ensures forall k :: k in old(queue) && k !in queue ==> old(queue)[k].timer.canceled
      ensures forall k :: k in queue ==> queue[k].timer.canceled == old(queue[k].timer.canceled)
      ensures readyCalls == old(readyCalls) + if CanSend(maxSeq, windowSize, View()) then 1 else 0
      ensures sent == old(sent) && windowSize == old(windowSize)
    {
      var ack := packet.ackNum.value;
      if !IsStale(maxSeq, maxWindow, lastAckReceived, ack) {
        AdvanceLar(ack);
        ghost var w := AfterAck(maxSeq, maxWindow, old(View()), ack);
        assert queue.Keys == w.outstanding;
      }
      if Delta(maxSeq, lastAckReceived, lastFrameSent) < windowSize {
        readyCalls := readyCalls + 1;
      }
    }
  }

  /** One pass of the ACK loop: LAR moves one step nearer the ACK and one step further from where it started. */
  lemma AckLoopStep(maxSeq: nat, lar0: int, lar: int, ack: int)
    requires InRange(maxSeq, lar0) && InRange(maxSeq, lar) && InRange(maxSeq, ack) && lar != ack
    requires Delta(maxSeq, lar0, lar) + Delta(maxSeq, lar, ack) == Delta(maxSeq, lar0, ack)
    ensures Delta(maxSeq, lar, ack) >= 1
    ensures Delta(maxSeq, Next(maxSeq, lar), ack) == Delta(maxSeq, lar, ack) - 1
    ensures Delta(maxSeq, lar0, Next(maxSeq, lar)) == Delta(maxSeq, lar0, lar) + 1
    ensures forall k :: InRange(maxSeq, k) ==>
      (Covered(maxSeq, lar0, Next(maxSeq, lar), k) <==> Covered(maxSeq, lar0, lar, k) || k == Next(maxSeq, lar))
  {
    DeltaCases(maxSeq, lar, ack);
    DeltaFromNext(maxSeq, lar, ack);
    DeltaToNextOf(maxSeq, lar0, lar);
    forall k | InRange(maxSeq, k) && Delta(maxSeq, lar0, k) == Delta(maxSeq, lar0, lar) + 1
      ensures k == Next(maxSeq, lar)
    {
      DeltaInjective(maxSeq, lar0, k, Next(maxSeq, lar));
    }
  }

  // ---------------------------------------------------------------------
  // The receiver (`MyReceiver`): LFR (last frame received) and the frames
  // buffered ahead of it.
  // ---------------------------------------------------------------------

  /** A frame the receiver treats as already seen: too far from LFR, or LFR itself. */
  predicate IsDuplicate(maxSeq: nat, maxWindow: int, lfr: int, num: int) {
    Delta(maxSeq, lfr, num) > maxWindow || lfr == num
  }

  /** The outcome of draining the buffer: the new LFR, what stays buffered, what was delivered. */
  datatype Drained = Drained(lfr: int, buffered: map<int, Message>, delivered: seq<Message>)

  /** The delivery loop: while the frame after LFR is buffered, take it out, deliver it and make it LFR. */
  function Drain(maxSeq: nat, lfr: int, q: map<int, Message>): (r: Drained)
    ensures |r.delivered| <= |q|
    decreases q.Keys
  {
    var n := Next(maxSeq, lfr);
    if n in q then
      var r := Drain(maxSeq, n, q - {n});
      Drained(r.lfr, r.buffered, [q[n]] + r.delivered)
    else
      Drained(lfr, q, [])
  }

  /** The `k`-th delivered message is the one buffered `k` steps after LFR. */
  lemma {:induction false} DrainDelivers(maxSeq: nat, lfr: int, q: map<int, Message>)
    ensures var r := Drain(maxSeq, lfr, q);
      forall k :: 1 <= k <= |r.delivered| ==>
        Advance(maxSeq, lfr, k) in q && r.delivered[k - 1] == q[Advance(maxSeq, lfr, k)]
    decreases q.Keys
  {
    var n1 := Next(maxSeq, lfr);
    if n1 in q {
      var q' := q - {n1};
      var r' := Drain(maxSeq, n1, q');
      var r := Drain(maxSeq, lfr, q);
      DrainDelivers(maxSeq, n1, q');
      assert Advance(maxSeq, lfr, 1) == n1;
      forall k | 1 <= k <= |r.delivered|
        ensures Advance(maxSeq, lfr, k) in q && r.delivered[k - 1] == q[Advance(maxSeq, lfr, k)]
      {
        if k > 1 {
          var x := Advance(maxSeq, n1, k - 1);
          assert x in q' && r'.delivered[k - 2] == q'[x];
          AdvanceAdd(maxSeq, lfr, 1, k - 1);
        }
      }
    }
  }

  /** LFR ends as many steps further on as messages were delivered. */
  lemma {:induction false} DrainLfr(maxSeq: nat, lfr: int, q: map<int, Message>)
    requires InRange(maxSeq, lfr)
    ensures var r := Drain(maxSeq, lfr, q); r.lfr == Advance(maxSeq, lfr, |r.delivered|)
    decreases q.Keys
  {
    var n1 := Next(maxSeq, lfr);
    if n1 in q {
      var q' := q - {n1};
      DrainLfr(maxSeq, n1, q');
      assert n1 == Advance(maxSeq, lfr, 1);
      AdvanceAdd(maxSeq, lfr, 1, |Drain(maxSeq, n1, q').delivered|);
    } else {
      ModUnique(lfr, maxSeq + 1, 0, lfr);
    }
  }

  /** The loop stops at a gap: the frame after the new LFR is not buffered. */
  lemma {:induction false} DrainStops(maxSeq: nat, lfr: int, q: map<int, Message>)
    ensures var r := Drain(maxSeq, lfr, q); Next(maxSeq, r.lfr) !in r.buffered
    decreases q.Keys
  {
    var n1 := Next(maxSeq, lfr);
    if n1 in q {
      DrainStops(maxSeq, n1, q - {n1});
    }
  }

  /** Taking two sets of keys out of a map one after the other is taking out their union. */
  lemma RemoveTwice<K, V>(q: map<K, V>, a: set<K>, b: set<K>)
    ensures (q - a) - b == q - (a + b)
  {
  }

  /** Exactly the delivered frames leave the buffer. */
  lemma {:induction false} DrainBuffered(maxSeq: nat, lfr: int, q: map<int, Message>)
    ensures var r := Drain(maxSeq, lfr, q); r.buffered == q - Span(maxSeq, lfr, |r.delivered|)
    decreases q.Keys
  {
    var n1 := Next(maxSeq, lfr);
    if n1 in q {
      var q' := q - {n1};
      var r' := Drain(maxSeq, n1, q');
      var d := |r'.delivered|;
      assert Drain(maxSeq, lfr, q) == Drained(r'.lfr, r'.buffered, [q[n1]] + r'.delivered);
      DrainBuffered(maxSeq, n1, q');
      SpanFromNext(maxSeq, lfr, d);
      RemoveTwice(q, {n1}, Span(maxSeq, n1, d));
      assert r'.buffered == q - Span(maxSeq, lfr, d + 1);
    } else {
      assert Span(maxSeq, lfr, 0) == {};
    }
  }

  /**
   * The receiver's buffer invariant: LFR is a sequence number and every
   * buffered frame with a number in range lies two to MAXIMUM_WINDOW steps
   * ahead of it (one step ahead would already have been delivered).
   */
  predicate ReceiverOk(maxSeq: nat, maxWindow: int, lfr: int, q: map<int, Message>) {
    && InRange(maxSeq, lfr)
    && forall k :: k in q && InRange(maxSeq, k) ==> 2 <= Delta(maxSeq, lfr, k) <= maxWindow
  }

  /** The frame LFR itself is never buffered, so at most MAXIMUM_SEQUENCE frames leave in one drain. */
  lemma DrainBound(maxSeq: nat, lfr: int, q: map<int, Message>)
    requires InRange(maxSeq, lfr) && lfr !in q
    ensures |Drain(maxSeq, lfr, q).delivered| <= maxSeq
  {
    AdvanceFullTurn(maxSeq, lfr);
    DrainDelivers(maxSeq, lfr, q);
  }

  /**
   * Accepting a frame that is not a duplicate and draining keeps the buffer
   * invariant, measured from the new LFR.
   */
  lemma ReceiveKeepsInvariant(maxSeq: nat, maxWindow: int, lfr: int, q: map<int, Message>, s: int, m: Message)
    requires ReceiverOk(maxSeq, maxWindow, lfr, q) && !IsDuplicate(maxSeq, maxWindow, lfr, s)
    ensures var r := Drain(maxSeq, lfr, q[s := m]); ReceiverOk(maxSeq, maxWindow, r.lfr, r.buffered)
  {
    var q1 := q[s := m];
    var r := Drain(maxSeq, lfr, q1);
    var n := |r.delivered|;
    DeltaExamples(maxSeq, lfr);
    assert lfr !in q1;
    DrainLfr(maxSeq, lfr, q1);
    DrainBuffered(maxSeq, lfr, q1);
    DrainStops(maxSeq, lfr, q1);
    DrainBound(maxSeq, lfr, q1);
    AdvanceSucc(maxSeq, lfr, n);
    forall k | k in r.buffered && InRange(maxSeq, k)
      ensures 2 <= Delta(maxSeq, r.lfr, k) <= maxWindow
    {
      assert k in q1 && k !in Span(maxSeq, lfr, n);
      assert k != lfr && Delta(maxSeq, lfr, k) <= maxWindow;
      KeptAhead(maxSeq, maxWindow, lfr, n, k);
    }
  }

  /**
   * A buffered frame that was not drained after `n` deliveries, and is not
   * the next one either, lies at least two steps ahead of the new LFR.
   */
  lemma KeptAhead(maxSeq: nat, maxWindow: int, lfr: int, n: nat, k: int)
    requires InRange(maxSeq, lfr) && InRange(maxSeq, k) && n <= maxSeq
    requires k != lfr && Delta(maxSeq, lfr, k) <= maxWindow
    requires k !in Span(maxSeq, lfr, n) && k != Advance(maxSeq, lfr, n + 1)
    ensures 2 <= Delta(maxSeq, Advance(maxSeq, lfr, n), k) <= maxWindow
  {
    var d := Delta(maxSeq, lfr, k);
    DeltaCases(maxSeq, lfr, k);
    AdvanceDelta(maxSeq, lfr, k);
    assert d > n + 1;
    DeltaAdvance(maxSeq, lfr, n);
    DeltaSub(maxSeq, lfr, Advance(maxSeq, lfr, n), k);
  }

  /** A frame that arrives ahead of a gap is only buffered: nothing is delivered and LFR stays. */
  lemma OutOfOrderIsBuffered(maxSeq: nat, maxWindow: int, lfr: int, q: map<int, Message>, s: int, m: Message)
    requires ReceiverOk(maxSeq, maxWindow, lfr, q) && InRange(maxSeq, s) && Delta(maxSeq, lfr, s) >= 2
    ensures Drain(maxSeq, lfr, q[s := m]) == Drained(lfr, q[s := m], [])
  {
    var n1 := Next(maxSeq, lfr);
    DeltaToNext(maxSeq, lfr);
    assert n1 != s && n1 !in q;
  }

  /** The frame right after LFR is delivered at once, ahead of anything it unblocks. */
  lemma InOrderIsDelivered(maxSeq: nat, lfr: int, q: map<int, Message>, m: Message)
    ensures var r := Drain(maxSeq, lfr, q[Next(maxSeq, lfr) := m]);
      |r.delivered| >= 1 && r.delivered[0] == m
  {
  }

  /** The ACK the receiver sends: a packet carrying only an acknowledgement number. */
  function AckPacket(ack: int): (p: Packet)
    ensures p.ackNum == Some(ack) && p.seqNum == None && p.data == None && !p.isEnd
  {
    NewPacket().(ackNum := Some(ack))
  }

  /**
   * `last_ack_sent` as the receiver writes it: the acknowledgement number of
   * the packet that just arrived, not of the ACK it sends back.
   */
  function LastAckSentAsWritten(incoming: Packet): (las: Option<int>)
    ensures las == incoming.ackNum
  {
    incoming.ackNum
  }

  /**
   * Data packets carry no acknowledgement number, so after any data packet
   * `last_ack_sent` as written is `None`, while the ACK sent names LFR.
   */
  lemma LastAckSentAsWrittenLosesAck(m: Message, num: int, lfr: int)
    ensures LastAckSentAsWritten(DataPacket(m, num)) == None
    ensures LastAckSentAsWritten(DataPacket(m, num)) != AckPacket(lfr).ackNum
  {
  }

  /** `MyReceiver`: LFR, the number of the last ACK sent, and the frames waiting for a gap to fill. */
  class Receiver {
    const maxSeq: nat        // MAXIMUM_SEQUENCE
    const maxWindow: int     // MAXIMUM_WINDOW
    var lastFrameReceived: int
    var lastAckSent: Option<int>
    var queue: map<int, Message>
    var delivered: seq<Message>  // what `to_application` was handed, in order
    var acks: seq<Packet>        // what `to_network` was handed, in order

    /** The buffer invariant, and LFR counts the deliveries around the sequence space. */
    ghost predicate Valid()
      reads this
    {
      && ReceiverOk(maxSeq, maxWindow, lastFrameReceived, queue)
      && lastFrameReceived == Advance(maxSeq, maxSeq, |delivered|)
    }

    /** `MyReceiver()`: LFR and LAS at MAXIMUM_SEQUENCE, nothing buffered. */
    constructor (maxSeq: nat, maxWindow: int)
      ensures Valid() && this.maxSeq == maxSeq && this.maxWindow == maxWindow
      ensures lastFrameReceived == maxSeq && lastAckSent == Some(maxSeq)
      ensures queue == map[] && delivered == [] && acks == []
    {
      this.maxSeq := maxSeq;
      this.maxWindow := maxWindow;
      lastFrameReceived := maxSeq;
      lastAckSent := Some(maxSeq);
      queue := map[];
      delivered := [];
      acks := [];
      new;
      ModUnique(maxSeq, maxSeq + 1, 0, maxSeq);
    }

    /**
     * `from_network` for a data packet: a duplicate changes nothing but the
     * ACK log; any other frame is buffered and the buffer is drained in
     * order. Either way one cumulative ACK for LFR goes out.
     */
    method FromNetwork(packet: Packet)
      requires Valid() && packet.seqNum.Some?
      modifies this
      ensures Valid()
      ensures IsDuplicate(maxSeq, maxWindow, old(lastFrameReceived), packet.seqNum.value) ==>
        lastFrameReceived == old(lastFrameReceived) && queue == old(queue) && delivered == old(delivered)
      ensures !IsDuplicate(maxSeq, maxWindow, old(lastFrameReceived), packet.seqNum.value) ==>
        var r := Drain(maxSeq, old(lastFrameReceived), old(queue)[packet.seqNum.value := MessageOf(packet)]);
        lastFrameReceived == r.lfr && queue == r.buffered && delivered == old(delivered) + r.delivered
      ensures acks == old(acks) + [AckPacket(lastFrameReceived)]
      ensures lastAckSent == Some(lastFrameReceived)
    {
      var s := packet.seqNum.value;
      if !IsDuplicate(maxSeq, maxWindow, lastFrameReceived, s) {
        ghost var lfr0, d0 := lastFrameReceived, delivered;
        ReceiveKeepsInvariant(maxSeq, maxWindow, lfr0, queue, s, MessageOf(packet));
        queue := queue[s := MessageOf(packet)];
        ghost var goal := Drain(maxSeq, lfr0, queue);
        DrainLfr(maxSeq, lfr0, queue);
        DeliverInOrder();
        AdvanceAdd(maxSeq, maxSeq, |d0|, |goal.delivered|);
      }
      acks := acks + [AckPacket(lastFrameReceived)];
      lastAckSent := Some(lastFrameReceived);
    }

    /**
     * The delivery loop of `from_network`: while the frame after LFR is
     * buffered, pop it, make it LFR and hand it to the application.
     */
    method DeliverInOrder()
      requires InRange(maxSeq, lastFrameReceived)
      modifies this
      ensures var r := old(Drain(maxSeq, lastFrameReceived, queue));
        lastFrameReceived == r.lfr && queue == r.buffered && delivered == old(delivered) + r.delivered
      ensures acks == old(acks) && lastAckSent == old(lastAckSent)
    {
      ghost var goal := Drain(maxSeq, lastFrameReceived, queue);
      ghost var d0 := delivered;
      while true
        invariant InRange(maxSeq, lastFrameReceived)
        invariant var r := Drain(maxSeq, lastFrameReceived, queue);
          r.lfr == goal.lfr && r.buffered == goal.buffered && delivered + r.delivered == d0 + goal.delivered
        invariant acks == old(acks) && lastAckSent == old(lastAckSent)
        decreases queue.Keys
      {
        var idx := Next(maxSeq, lastFrameReceived);
        if idx in queue {
          var message := queue[idx];
          ghost var rest := Drain(maxSeq, idx, queue - {idx});
          assert delivered + [message] + rest.delivered == delivered + ([message] + rest.delivered);
          queue := queue - {idx};
          lastFrameReceived := idx;
          delivered := delivered + [message];
        } else {
          break;
        }
      }
    }
  }
}

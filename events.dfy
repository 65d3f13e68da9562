/**
 * The discrete-event core of the network simulator (hw2c/simulator.py):
 * events ordered by (time, insertion index), a virtual clock that never runs
 * backwards, and lazy cancellation through a flag on the event itself.
 */
module Events {
  import opened Common
  import opened Packets

  /** What an event does when it fires; the callbacks of the source, by kind. */
  datatype Action =
    | TransmitNext(link: string)          // a link's next dequeue (Link.transmit_next)
    | Arrive(packet: Packet)              // a packet reaches `packet.destination`
    | Resend(packet: Packet)              // sliding-window retransmission timer
    | ResendIfWaiting(packet: Packet)     // stop-and-wait retransmission timer
    | SendMessages(connection: string)    // the initial data send
    | GenerateNext(connection: string)    // the message generator of a connection

  /**
   * A scheduled event. Time, action, description and index never change once
   * the event is in the heap; only `canceled` does, through any alias.
   */
  class Event {
    const time: real
    const action: Action
    const description: string
    const index: nat
    var canceled: bool

    constructor (time: real, action: Action, description: string, index: nat)
      ensures this.time == time && this.action == action
      ensures this.description == description && this.index == index
      ensures !canceled
    {
      this.time := time;
      this.action := action;
      this.description := description;
      this.index := index;
      canceled := false;
    }
  }

  /** `Event.__lt__`: earlier time first, insertion index breaks ties. */
  predicate Before(a: Event, b: Event) {
    if a.time == b.time then a.index < b.index else a.time < b.time
  }

  /** `Before` is a strict order, total on events with distinct indices. */
  lemma BeforeIsStrictTotalOrder(a: Event, b: Event, c: Event)
    ensures !Before(a, a)
    ensures Before(a, b) ==> !Before(b, a)
    ensures Before(a, b) && Before(b, c) ==> Before(a, c)
    ensures a.index != b.index ==> Before(a, b) || Before(b, a)
  {
  }

  /** The heap's content in pop order: each event strictly before every later one. */
  ghost predicate Ordered(q: seq<Event>) {
    forall i, j :: 0 <= i < j < |q| ==> Before(q[i], q[j])
  }

  /** The heap after `heappush(q, e)`, listed in pop order. */
  function Insert(q: seq<Event>, e: Event): (r: seq<Event>)
    ensures |r| == |q| + 1
    ensures multiset(r) == multiset(q) + multiset{e}
  {
    if q == [] then [e]
    else if Before(e, q[0]) then [e] + q
    else
      assert q == [q[0]] + q[1..];
      [q[0]] + Insert(q[1..], e)
  }

  /** Pushing an event whose index is new keeps the heap ordered. */
  lemma {:induction false} InsertOrdered(q: seq<Event>, e: Event)
    requires Ordered(q)
    requires forall x :: x in q ==> x.index != e.index
    ensures Ordered(Insert(q, e))
  {
    if q != [] && !Before(e, q[0]) {
      InsertOrdered(q[1..], e);
      var r := Insert(q, e);
      assert r == [q[0]] + Insert(q[1..], e);
      forall j | 0 < j < |r|
        ensures Before(r[0], r[j])
      {
        assert r[j] in multiset(Insert(q[1..], e));
        assert r[j] in q[1..] || r[j] == e;
        if r[j] != e {
          var k :| 0 <= k < |q[1..]| && q[1..][k] == r[j];
          assert Before(q[0], q[k + 1]);
        }
      }
    }
  }

  /** Events that share a time leave the heap in the order they were added. */
  lemma TiesPopInInsertionOrder(q: seq<Event>, i: int, j: int)
    requires Ordered(q) && 0 <= i < j < |q|
    ensures q[i].time <= q[j].time
    ensures q[i].time == q[j].time ==> q[i].index < q[j].index
  {
  }

  /** The `canceled` flags of `q`'s events, read at one moment. */
  ghost function Flags(q: seq<Event>): (f: seq<bool>)
    reads q
    ensures |f| == |q| && forall i :: 0 <= i < |q| ==> f[i] == q[i].canceled
  {
    seq(|q|, i requires 0 <= i < |q| reads q => q[i].canceled)
  }

  /** The events of `q` whose flag in `canceled` is off, in order: the ones whose action runs. */
  function Live(q: seq<Event>, canceled: seq<bool>): (r: seq<Event>)
    requires |canceled| == |q|
    ensures |r| <= |q|
    ensures forall e :: e in r ==> exists i :: 0 <= i < |q| && q[i] == e && !canceled[i]
  {
    if q == [] then []
    else
      var rest := Live(q[1..], canceled[1..]);
      assert forall e :: e in rest ==> exists i :: 0 <= i < |q| && q[i] == e && !canceled[i] by {
        forall e | e in rest ensures exists i :: 0 <= i < |q| && q[i] == e && !canceled[i] {
          var i :| 0 <= i < |q[1..]| && q[1..][i] == e && !canceled[1..][i];
          assert q[i + 1] == e && !canceled[i + 1];
        }
      }
      (if canceled[0] then [] else [q[0]]) + rest
  }

  /** A popped event whose flag was set is consumed without running (lazy cancellation). */
  lemma CanceledNeverFires(q: seq<Event>, canceled: seq<bool>, i: int)
    requires Ordered(q) && |canceled| == |q| && 0 <= i < |q| && canceled[i]
    ensures q[i] !in Live(q, canceled)
  {
    forall e | e in Live(q, canceled)
      ensures e != q[i]
    {
      var j :| 0 <= j < |q| && q[j] == e && !canceled[j];
      if j < i {
        assert Before(q[j], q[i]);
      } else {
        assert Before(q[i], q[j]);
      }
    }
  }

  function Max(a: real, b: real): real {
    if a < b then b else a
  }

  /** An ordered list split in two: both halves are ordered and every event of the first comes before every event of the second. */
  lemma OrderedParts(a: seq<Event>, b: seq<Event>)
    requires Ordered(a + b)
    ensures Ordered(a) && Ordered(b)
    ensures forall x, y :: x in a && y in b ==> Before(x, y)
    ensures forall x :: x in a ==> x !in b
  {
    assert forall i :: 0 <= i < |a| ==> (a + b)[i] == a[i];
    assert forall j :: 0 <= j < |b| ==> (a + b)[|a| + j] == b[j];
    forall x, y | x in a && y in b
      ensures Before(x, y)
    {
      var i :| 0 <= i < |a| && a[i] == x;
      var j :| 0 <= j < |b| && b[j] == y;
      assert (a + b)[i] == x && (a + b)[|a| + j] == y;
    }
  }

  /** Two ordered lists, the first wholly before the second, make one ordered list. */
  lemma OrderedJoin(a: seq<Event>, b: seq<Event>)
    requires Ordered(a) && Ordered(b)
    requires forall x, y :: x in a && y in b ==> Before(x, y)
    ensures Ordered(a + b)
  {
    forall i, j | 0 <= i < j < |a + b|
      ensures Before((a + b)[i], (a + b)[j])
    {
      if j < |a| {
        assert (a + b)[i] == a[i] && (a + b)[j] == a[j];
      } else if i < |a| {
        assert (a + b)[i] == a[i] && (a + b)[j] == b[j - |a|];
      } else {
        assert (a + b)[i] == b[i - |a|] && (a + b)[j] == b[j - |a|];
      }
    }
  }

  /**
   * The heap's pop order is fixed by its content: two ordered lists of the
   * same events are the same list. A heap is therefore described in full by
   * `Ordered` and its multiset.
   */
  lemma {:induction false} OrderedUnique(a: seq<Event>, b: seq<Event>)
    requires Ordered(a) && Ordered(b) && multiset(a) == multiset(b)
    ensures a == b
  {
    if a == [] {
      assert |b| == |multiset(b)| == 0;
    } else {
      assert |b| == |multiset(b)| == |multiset(a)| == |a|;
      SameHead(a, b);
      SameTail(a, b);
      OrderedTail(a);
      OrderedTail(b);
      OrderedUnique(a[1..], b[1..]);
      assert a == [a[0]] + a[1..] && b == [b[0]] + b[1..];
    }
  }

  /** Two ordered lists of the same events start with the same event. */
  lemma SameHead(a: seq<Event>, b: seq<Event>)
    requires Ordered(a) && Ordered(b) && a != [] && b != [] && multiset(a) == multiset(b)
    ensures a[0] == b[0]
  {
    if a[0] != b[0] {
      assert a[0] in multiset(b) && b[0] in multiset(a);
      var j :| 0 <= j < |b| && b[j] == a[0];
      var i :| 0 <= i < |a| && a[i] == b[0];
      BeforeIsStrictTotalOrder(a[0], b[0], a[0]);
      assert false;
    }
  }

  /** Taking the same head off two lists of the same events leaves two lists of the same events. */
  lemma SameTail(a: seq<Event>, b: seq<Event>)
    requires a != [] && b != [] && a[0] == b[0] && multiset(a) == multiset(b)
    ensures multiset(a[1..]) == multiset(b[1..])
  {
    assert a == [a[0]] + a[1..] && b == [b[0]] + b[1..];
    assert multiset(a) == multiset{a[0]} + multiset(a[1..]);
    assert multiset(b) == multiset{b[0]} + multiset(b[1..]);
    assert multiset(a[1..]) == multiset(a) - multiset{a[0]};
  }

  /** The tail of an ordered list is ordered. */
  lemma OrderedTail(a: seq<Event>)
    requires Ordered(a) && a != []
    ensures Ordered(a[1..])
  {
    forall i, j | 0 <= i < j < |a| - 1
      ensures Before(a[1..][i], a[1..][j])
    {
      assert a[1..][i] == a[i + 1] && a[1..][j] == a[j + 1];
    }
  }

  /**
   * A delay the modelled actions schedule with. None is negative: one
   * transmission time 1/bandwidth, the link delay plus its jitter, or
   * INITIAL_TIMEOUT.
   */
  type Delay = r: real | r >= 0.0

  /** One `create_timer` call an action makes. */
  datatype Request = Request(timeout: Delay, action: Action, description: string)

  /**
   * What an event's action does to the scheduler when it runs: the timers
   * it creates, in order, and the timers it cancels. What it does to links
   * and endpoints is modelled by their own methods.
   */
  datatype Effect = Effect(timers: seq<Request>, cancels: seq<Event>)

  /** `e` is the event `create_timer` makes for `r` at clock `now`, with insertion index `index`. */
  predicate Made(e: Event, r: Request, now: real, index: nat) {
    e.time == now + r.timeout && e.action == r.action && e.description == r.description && e.index == index
  }

  /** The actions of the events `es`, in order. */
  function ActionsOf(es: seq<Event>): (r: seq<Action>)
    ensures |r| == |es| && forall k :: 0 <= k < |es| ==> r[k] == es[k].action
  {
    seq(|es|, k requires 0 <= k < |es| => es[k].action)
  }

  /** The actions of the requests `rs`, in order. */
  function RequestedActions(rs: seq<Request>): (r: seq<Action>)
    ensures |r| == |rs| && forall k :: 0 <= k < |rs| ==> r[k] == rs[k].action
  {
    seq(|rs|, k requires 0 <= k < |rs| => rs[k].action)
  }

  /** Every timer action the events `fired` ask for when they run in this order. */
  function Scheduled(react: Event -> Effect, fired: seq<Event>): seq<Action>
    decreases |fired|
  {
    if fired == [] then []
    else Scheduled(react, fired[..|fired| - 1]) + RequestedActions(react(fired[|fired| - 1]).timers)
  }

  /** One more action run: its timers' actions follow the earlier ones. */
  lemma ScheduledStep(react: Event -> Effect, fired: seq<Event>, created: seq<Event>, e: Event, step: seq<Event>, now: real, index: nat)
    requires ActionsOf(created) == Scheduled(react, fired)
    requires |step| == |react(e).timers|
    requires forall k :: 0 <= k < |step| ==> Made(step[k], react(e).timers[k], now, index + k)
    ensures ActionsOf(created + step) == Scheduled(react, fired + [e])
  {
    assert (fired + [e])[..|fired|] == fired;
    assert ActionsOf(step) == RequestedActions(react(e).timers);
    assert ActionsOf(created + step) == ActionsOf(created) + ActionsOf(step);
  }

  /** The clock of a run that started at `t0` and has popped `popped`: the time of the latest pop, if later. */
  function ClockAfter(t0: real, popped: seq<Event>): real {
    if popped == [] then t0 else Max(t0, popped[|popped| - 1].time)
  }

  /** Every pop but the last left the clock within `limit`. */
  predicate EarlierPopsWithin(t0: real, popped: seq<Event>, limit: real) {
    forall i :: 0 <= i < |popped| - 1 ==> Max(t0, popped[i].time) <= limit
  }

  /** Popping one more event in order moves the clock to its time if that is later; earlier pops stay within the limit. */
  lemma ClockStep(t0: real, popped: seq<Event>, e: Event, limit: Option<real>)
    requires Ordered(popped + [e])
    requires limit.Some? ==> EarlierPopsWithin(t0, popped, limit.value)
    requires limit.Some? && popped != [] ==> ClockAfter(t0, popped) <= limit.value
    ensures Max(ClockAfter(t0, popped), e.time) == ClockAfter(t0, popped + [e])
    ensures limit.Some? ==> EarlierPopsWithin(t0, popped + [e], limit.value)
  {
    if popped != [] {
      assert Before(popped[|popped| - 1], e) by {
        assert (popped + [e])[|popped| - 1] == popped[|popped| - 1] && (popped + [e])[|popped|] == e;
      }
    }
  }

  /**
   * What a run has done so far, from the heap `q0` it started with and the
   * clock `t0`: `popped` left the heap in order and everything still
   * `queued` comes after it; the two hold exactly the initial events and the
   * timers `created`; those timers are the ones the `fired` actions asked
   * for; `fired` are the popped events whose flag in `flags` was off; and
   * the clock stands at the latest popped time.
   */
  ghost predicate Progress(q0: seq<Event>, t0: real, react: Event -> Effect, popped: seq<Event>, flags: seq<bool>,
                           fired: seq<Event>, created: seq<Event>, queued: seq<Event>, clock: real, next: nat)
  {
    && Ordered(popped + queued)
    && (forall x :: x in popped ==> x !in queued)
    && multiset(popped + queued) == multiset(q0 + created)
    && (forall x :: x in queued ==> x in q0 || x in created)
    && ActionsOf(created) == Scheduled(react, fired)
    && |flags| == |popped| && fired == Live(popped, flags)
    && (forall x :: x in popped ==> x.time <= clock && x.index < next)
    && clock == ClockAfter(t0, popped)
  }

  /**
   * One `_run_next` that pops `before[0]` keeps `Progress`: `flag` is the
   * popped event's flag, `step` the timers its action made (none when the
   * flag is set), `after` the heap and `now` the clock once it ran.
   */
  lemma ProgressStep(q0: seq<Event>, t0: real, react: Event -> Effect, popped: seq<Event>, flags: seq<bool>,
                     fired: seq<Event>, created: seq<Event>, before: seq<Event>, clock: real, next: nat,
                     flag: bool, step: seq<Event>, after: seq<Event>, now: real, limit: Option<real>)
    requires Progress(q0, t0, react, popped, flags, fired, created, before, clock, next)
    requires before != [] && now == Max(clock, before[0].time)
    requires forall x :: x in before ==> x.index < next
    requires Ordered(after) && multiset(after) == multiset(before[1..]) + multiset(step)
    requires forall x :: x in after <==> x in before[1..] || x in step
    requires flag ==> step == []
    requires !flag ==> |step| == |react(before[0]).timers|
    requires !flag ==> forall k :: 0 <= k < |step| ==> Made(step[k], react(before[0]).timers[k], now, next + k)
    requires limit.Some? ==> EarlierPopsWithin(t0, popped, limit.value)
    requires limit.Some? && popped != [] ==> clock <= limit.value
    ensures Progress(q0, t0, react, popped + [before[0]], flags + [flag],
                     if flag then fired else fired + [before[0]], created + step, after, now, next + |step|)
    ensures limit.Some? ==> EarlierPopsWithin(t0, popped + [before[0]], limit.value)
  {
    var p := before[0];
    forall y | y in step
      ensures y.time >= now && y.index >= next
    {
      var k :| 0 <= k < |step| && step[k] == y;
    }
    OrderedStep(popped, before, step, after, now, next);
    ClockStep(t0, popped, p, limit);
    LiveSnoc(popped, flags, p, flag);
    if flag {
      assert created + step == created;
    } else {
      ScheduledStep(react, fired, created, p, step, now, next);
    }
    assert q0 + (created + step) == (q0 + created) + step;
    forall x | x in after
      ensures x in q0 || x in created + step
    {
      if x in before[1..] {
        assert x in before;
      }
    }
  }

  /** The simulator's scheduling state. */
  class Simulator {
    var time: real
    var nextIndex: nat
    var done: bool
    var events: seq<Event>   // `_event_list`, listed in pop order

    ghost predicate Valid()
      reads this
    {
      && Ordered(events)
      && (forall e :: e in events ==> e.index < nextIndex)
    }

    constructor ()
      ensures Valid()
      ensures time == 0.0 && nextIndex == 0 && !done && events == []
    {
      time := 0.0;
      nextIndex := 0;
      done := false;
      events := [];
    }

    /**
     * `add_event`: the event gets the next insertion index, so that among
     * events of equal time it pops after every event added before it.
     */
    method AddEvent(t: real, action: Action, description: string) returns (e: Event)
      requires Valid()
      modifies this
      ensures Valid() && fresh(e)
      ensures e.time == t && e.action == action && e.description == description && !e.canceled
      ensures e.index == old(nextIndex) && nextIndex == old(nextIndex) + 1
      ensures events == Insert(old(events), e)
      ensures forall x :: x in events <==> x in old(events) || x == e
      ensures time == old(time) && done == old(done)
    {
      e := new Event(t, action, description, nextIndex);
      nextIndex := nextIndex + 1;
      InsertOrdered(events, e);
      assert forall x :: x in Insert(events, e) ==> x in multiset(events) + multiset{e};
      events := Insert(events, e);
    }

    /** `_pop_event`: the least event under `Before`, or None on an empty heap. */
    method PopEvent() returns (e: Option<Event>)
      requires Valid()
      modifies this
      ensures Valid()
      ensures old(events) == [] ==> e == None && events == []
      ensures old(events) != [] ==> e == Some(old(events)[0]) && events == old(events)[1..]
      ensures e.Some? ==> forall x :: x in events ==> Before(e.value, x)
      ensures time == old(time) && nextIndex == old(nextIndex) && done == old(done)
    {
      if |events| > 0 {
        e := Some(events[0]);
        events := events[1..];
      } else {
        e := None;
      }
    }

    /** `create_timer`: an event `timeout` after the current time; the event is its own cancel handle. */
    method CreateTimer(timeout: real, action: Action, description: string) returns (e: Event)
      requires Valid()
      modifies this
      ensures Valid() && fresh(e)
      ensures e.time == old(time) + timeout && e.action == action && e.description == description
      ensures !e.canceled && e.index == old(nextIndex) && nextIndex == old(nextIndex) + 1
      ensures events == Insert(old(events), e)
      ensures forall x :: x in events <==> x in old(events) || x == e
      ensures time == old(time) && done == old(done)
    {
      e := AddEvent(time + timeout, action, description);
    }

    /** The `create_timer` calls of a running action, in order. */
    method Schedule(requests: seq<Request>) returns (created: seq<Event>)
      requires Valid()
      modifies this
      ensures Valid() && time == old(time) && done == old(done)
      ensures |created| == |requests| && nextIndex == old(nextIndex) + |requests|
      ensures forall x :: x in created ==> fresh(x) && !x.canceled
      ensures forall k :: 0 <= k < |created| ==> Made(created[k], requests[k], time, old(nextIndex) + k)
      ensures multiset(events) == multiset(old(events)) + multiset(created)
      ensures forall x :: x in events <==> x in old(events) || x in created
    {
      created := [];
      var k := 0;
      while k < |requests|
        invariant 0 <= k <= |requests| && |created| == k
        invariant Valid() && time == old(time) && done == old(done) && nextIndex == old(nextIndex) + k
        invariant forall x :: x in created ==> fresh(x) && !x.canceled
        invariant forall j :: 0 <= j < k ==> Made(created[j], requests[j], old(time), old(nextIndex) + j)
        invariant multiset(events) == multiset(old(events)) + multiset(created)
        invariant forall x :: x in events <==> x in old(events) || x in created
      {
        var e := CreateTimer(requests[k].timeout, requests[k].action, requests[k].description);
        created := created + [e];
        k := k + 1;
      }
    }

    /**
     * The `cancel_timer` calls of a running action. Cancelling an event
     * that has already left the heap changes nothing the run can observe,
     * so only queued events are marked.
     */
    method CancelQueued(cancels: seq<Event>)
      modifies events
      ensures forall x :: x in events ==> x.canceled == (old(x.canceled) || x in cancels)
    {
      var k := 0;
      while k < |cancels|
        invariant 0 <= k <= |cancels|
        invariant forall x :: x in events ==> x.canceled == (old(x.canceled) || x in cancels[..k])
      {
        var c := cancels[k];
        if c in events {
          c.canceled := true;
        }
        assert cancels[..k + 1] == cancels[..k] + [c];
        k := k + 1;
      }
    }

    /**
     * `_run_next`: pops one event and moves the clock to its time unless the
     * clock is already later; unless the event was cancelled its action
     * runs, creating the timers and cancelling the queued events that
     * `react` gives for it. `fired` is the event whose action ran.
     */
    method RunNext(react: Event -> Effect, ghost gone: seq<Event>)
      returns (progressed: bool, fired: Option<Event>, ghost created: seq<Event>)
      requires Valid()
      requires forall x :: x in gone ==> x !in events
      modifies this, set x | x in events
      ensures Valid() && done == old(done) && time >= old(time)
      ensures progressed <==> old(events) != []
      ensures !progressed ==>
        events == old(events) && time == old(time) && nextIndex == old(nextIndex) && fired == None && created == []
      ensures progressed ==>
        && time == Max(old(time), old(events)[0].time)
        && unchanged(old(events)[0])
        && fired == (if old(events)[0].canceled then None else Some(old(events)[0]))
        && (fired == None ==> created == [])
        && (fired.Some? ==>
              && |created| == |react(fired.value).timers|
              && forall k :: 0 <= k < |created| ==> Made(created[k], react(fired.value).timers[k], time, old(nextIndex) + k))
        && multiset(events) == multiset(old(events)[1..]) + multiset(created)
        && (forall x :: x in events <==> x in old(events)[1..] || x in created)
        && nextIndex == old(nextIndex) + |created|
        && (forall x :: x in old(events)[1..] ==>
              x.canceled == (old(x.canceled) || (fired.Some? && x in react(fired.value).cancels)))
      ensures forall x :: x in created ==> fresh(x) && x.canceled == (fired.Some? && x in react(fired.value).cancels)
      // events that left the heap earlier keep their flags
      ensures Flags(gone) == old(Flags(gone))
    {
      var e := PopEvent();
      created := [];
      if e.None? {
        return false, None, [];
      }
      progressed := true;
      time := Max(time, e.value.time);
      if e.value.canceled {
        fired := None;
        return;
      }
      fired := Some(e.value);
      var effect := react(e.value);
      ghost var rest := events;
      created := Schedule(effect.timers);
      assert forall x :: x in events ==> x in old(events) || fresh(x);
      CancelQueued(effect.cancels);
    }

    /**
     * One iteration of `run`'s loop: `_run_next`, with the ghost record of
     * the run so far brought up to date.
     */
    method Advance(react: Event -> Effect, ghost q0: seq<Event>, ghost t0: real, ghost limit: Option<real>,
                   fired: seq<Event>, ghost popped: seq<Event>, ghost flags: seq<bool>, ghost created: seq<Event>)
      returns (progressed: bool, fired': seq<Event>, ghost popped': seq<Event>, ghost flags': seq<bool>,
               ghost created': seq<Event>)
      requires Valid() && Progress(q0, t0, react, popped, flags, fired, created, events, time, nextIndex)
      requires Flags(popped) == flags
      requires limit.Some? ==> EarlierPopsWithin(t0, popped, limit.value)
      requires limit.Some? && popped != [] ==> time <= limit.value
      modifies this, set x | x in events
      ensures Valid() && done == old(done) && time >= old(time)
      ensures progressed <==> old(events) != []
      ensures !progressed ==>
        fired' == fired && popped' == popped && flags' == flags && created' == created && events == old(events)
      ensures progressed ==> |popped'| == |popped| + 1
      ensures |created'| >= |created| && nextIndex == old(nextIndex) + (|created'| - |created|)
      ensures forall x :: x in created' ==> x in created || fresh(x)
      ensures Progress(q0, t0, react, popped', flags', fired', created', events, time, nextIndex)
      ensures Flags(popped') == flags'
      ensures limit.Some? ==> EarlierPopsWithin(t0, popped', limit.value)
    {
      ghost var before, clock, index := events, time, nextIndex;
      var e;
      ghost var step;
      progressed, e, step := RunNext(react, popped);
      if !progressed {
        return progressed, fired, popped, flags, created;
      }
      ProgressStep(q0, t0, react, popped, flags, fired, created, before, clock, index,
                   e.None?, step, events, time, limit);
      FlagsSnoc(popped, before[0]);
      fired' := if e.Some? then fired + [e.value] else fired;
      popped', flags', created' := popped + [before[0]], flags + [e.None?], created + step;
    }

    /**
     * `run`: runs events until the heap is empty or, once the clock has
     * passed `timeLimit`, marks the simulation done; running actions
     * schedule and cancel as `react` says. Actions may keep scheduling for
     * ever, so at most `fuel` events are popped.
     *
     * `popped` lists the events that left the heap, `fired` those whose
     * action ran and `created` the timers those actions made.
     */
    method Run(timeLimit: Option<real>, react: Event -> Effect, fuel: nat)
      returns (fired: seq<Event>, ghost popped: seq<Event>, ghost created: seq<Event>)
      requires Valid()
      modifies this, set x | x in events
      ensures Valid() && nextIndex == old(nextIndex) + |created| && |popped| <= fuel
      // events leave in (time, index) order, and everything still queued comes after them
      ensures Ordered(popped + events)
      // the heap held exactly the initial events and the timers the running actions asked for
      ensures multiset(popped + events) == multiset(old(events) + created)
      ensures forall x :: x in created ==> fresh(x)
      ensures ActionsOf(created) == Scheduled(react, fired)
      // lazy cancellation: an action runs exactly when its event was not flagged when popped
      ensures fired == Live(popped, Flags(popped))
      // the clock only moves forward, to the latest popped time
      ensures time == ClockAfter(old(time), popped) && time >= old(time)
      ensures forall x :: x in popped ==> x.time <= time
      // the loop ends on an empty heap or the time limit, unless the fuel runs out first
      ensures done || events == [] || |popped| == fuel
      ensures old(done) ==> popped == [] && created == [] && events == old(events) && time == old(time)
      ensures timeLimit.Some? ==> EarlierPopsWithin(old(time), popped, timeLimit.value)
      ensures done && !old(done) ==> timeLimit.Some? && time > timeLimit.value
    {
      fired, popped, created := [], [], [];
      ghost var q0, t0, i0 := events, time, nextIndex;
      ghost var flags: seq<bool> := [];
      var steps := 0;
      while !done && steps < fuel
        invariant steps == |popped| <= fuel
        invariant Valid() && nextIndex == i0 + |created| && time >= t0
        invariant Progress(q0, t0, react, popped, flags, fired, created, events, time, nextIndex)
        invariant Flags(popped) == flags
        invariant forall x :: x in created ==> fresh(x)
        invariant old(done) ==> done && popped == [] && created == [] && events == q0 && time == t0
        invariant timeLimit.Some? ==> EarlierPopsWithin(t0, popped, timeLimit.value)
        invariant timeLimit.Some? && popped != [] && !done ==> time <= timeLimit.value
        invariant done && !old(done) ==> timeLimit.Some? && time > timeLimit.value
        decreases fuel - steps
      {
        var progressed;
        progressed, fired, popped, flags, created := Advance(react, q0, t0, timeLimit, fired, popped, flags, created);
        if !progressed {
          break;
        }
        steps := steps + 1;
        if timeLimit.Some? && time > timeLimit.value {
          done := true;
        }
      }
    }
  }

  /**
   * One step of `run` keeps the popped events and the heap in order: the
   * head of the heap is popped, and the timers its action creates are no
   * earlier than the clock and carry newer indices than anything popped.
   */
  lemma OrderedStep(popped: seq<Event>, before: seq<Event>, step: seq<Event>, after: seq<Event>, now: real, index: nat)
    requires Ordered(popped + before) && before != [] && Ordered(after)
    requires multiset(after) == multiset(before[1..]) + multiset(step)
    requires forall x :: x in popped + [before[0]] ==> x.time <= now && x.index < index
    requires forall y :: y in step ==> y.time >= now && y.index >= index
    ensures Ordered(popped + [before[0]]) && Ordered(popped + [before[0]] + after)
    ensures forall x :: x in popped + [before[0]] ==> x !in after
    ensures multiset(popped + [before[0]] + after) == multiset(popped + before) + multiset(step)
  {
    var done := popped + [before[0]];
    assert popped + before == done + before[1..];
    OrderedParts(done, before[1..]);
    forall x, y | x in done && y in after
      ensures Before(x, y)
    {
      assert y in multiset(after);
    }
    forall x | x in done
      ensures x !in after
    {
      if x in after {
        BeforeIsStrictTotalOrder(x, x, x);
      }
    }
    OrderedJoin(done, after);
  }

  /** Flags over a list grown by one event. */
  lemma FlagsSnoc(q: seq<Event>, e: Event)
    ensures Flags(q + [e]) == Flags(q) + [e.canceled]
  {
  }

  /** Live over a list grown by one event. */
  lemma {:induction false} LiveSnoc(q: seq<Event>, canceled: seq<bool>, e: Event, c: bool)
    requires |canceled| == |q|
    ensures Live(q + [e], canceled + [c]) == Live(q, canceled) + (if c then [] else [e])
  {
    if q == [] {
      assert [e][1..] == [] && [c][1..] == [];
    } else {
      assert (q + [e])[1..] == q[1..] + [e];
      assert (canceled + [c])[1..] == canceled[1..] + [c];
      LiveSnoc(q[1..], canceled[1..], e, c);
    }
  }
}

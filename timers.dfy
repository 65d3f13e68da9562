/**
 * The timer helpers every endpoint uses (hw4/util.py): a timer is a
 * simulator event, and cancelling it only sets the event's flag.
 */
module Timers {
  import opened Common
  import opened Events

  /** The description `create_timer` makes up for a timer created at `site` when none is given. */
  function DefaultDescription(site: string): (d: string)
    ensures |d| > |site| && d[|d| - |site|..] == site
  {
    "timer created on " + site
  }

  /**
   * `create_timer`: timeout and action go to the simulator unchanged; a
   * description is synthesised from the call site only when none is given.
   * `site` stands for the caller's file, line and function name.
   */
  method CreateTimer(sim: Simulator, timeout: real, action: Action, description: Option<string>, site: string)
    returns (e: Event)
    requires sim.Valid()
    modifies sim
    ensures sim.Valid() && fresh(e)
    ensures e.time == old(sim.time) + timeout && e.action == action && !e.canceled
    ensures e.description == if description.Some? then description.value else DefaultDescription(site)
    ensures e.index == old(sim.nextIndex) && sim.nextIndex == old(sim.nextIndex) + 1
    ensures sim.events == Insert(old(sim.events), e)
    ensures sim.time == old(sim.time) && sim.done == old(sim.done)
  {
    var d := if description.Some? then description.value else DefaultDescription(site);
    e := sim.CreateTimer(timeout, action, d);
  }

  /** `cancel_timer`: marks the event; it stays in the heap and is skipped when popped. */
  method CancelTimer(timer: Event)
    modifies timer
    ensures timer.canceled
  {
    timer.canceled := true;
  }
}

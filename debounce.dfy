/**
 * The `debounce` build-stage controller (build/lib/util.js, lines 58-85).
 *
 * It starts a run of its task at construction; input that arrives during a
 * run only marks the controller stale, and a run that ends stale schedules
 * exactly one more run after the quiet period. As in the `Incremental`
 * module, the timer is one pending flag and its expiry is `TimerFire`.
 */
module Debounce {

  datatype RunState = Idle | Running | Stale

  class Controller {
    var state: RunState
    /** The debounced re-run is armed and has not fired yet. */
    var timerPending: bool
    /** How many runs have been started. */
    var started: nat
    /** How many runs have completed. */
    var completed: nat

    /** At most one run is active (runs never overlap), and the timer is armed only while idle. */
    ghost predicate Valid()
      reads this
    {
      completed <= started <= completed + 1 &&
      (state == Idle <==> started == completed) &&
      (timerPending ==> state == Idle)
    }

    /** Construction starts the first run (line 74). */
    constructor ()
      ensures Valid()
      ensures state == Running && started == 1 && completed == 0 && !timerPending
    {
      state := Idle;
      timerPending := false;
      started, completed := 0, 0;
      new;
      StartRun();
    }

    /** `run()` (lines 62-73), without the plumbing of the stream `task()` returns. */
    method StartRun()
      modifies this
      ensures state == Running && started == old(started) + 1
      ensures completed == old(completed) && timerPending == old(timerPending)
    {
      state := Running;
      started := started + 1;
    }

    /** Data arrives on the input stream (lines 76-83). */
    method Arrive()
      requires Valid()
      modifies this
      ensures Valid()
      ensures old(state) == Idle ==> state == Idle && timerPending
      ensures old(state) != Idle ==> state == Stale && timerPending == old(timerPending)
      ensures started == old(started) && completed == old(completed)
    {
      if state == Idle {
        timerPending := true;
      } else {
        state := Stale;
      }
    }

    /** The running task's output ends (lines 65-71). */
    method RunComplete()
      requires Valid() && state != Idle
      modifies this
      ensures Valid() && state == Idle
      ensures timerPending == (old(state) == Stale)
      ensures started == old(started) && completed == old(completed) + 1
    {
      var shouldRunAgain := state == Stale;
      state := Idle;
      completed := completed + 1;
      if shouldRunAgain {
        timerPending := true;
      }
    }

    /** The debounced re-run fires (line 75); this only happens while idle. */
    method TimerFire()
      requires Valid() && timerPending
      modifies this
      ensures Valid() && old(state) == Idle
      ensures state == Running && !timerPending
      ensures started == old(started) + 1 && completed == old(completed)
    {
      timerPending := false;
      StartRun();
    }
  }

  /**
   * Two triggers during the first run: the first run ends stale, so exactly
   * one more run is started, and with no further input the controller then
   * settles idle with no timer armed.
   */
  method StaleRerunScenario() returns (started: nat, pending: bool)
    ensures started == 2 && !pending
  {
    var ctl := new Controller();
    ctl.Arrive();
    ctl.Arrive();
    ctl.RunComplete();
    ctl.TimerFire();
    ctl.RunComplete();
    started, pending := ctl.started, ctl.timerPending;
  }
}

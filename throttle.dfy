/**
 * The scroll-event throttle: a wrapped handler runs only while a gate is
 * open; a run that returns closes the gate and starts a timer whose expiry
 * opens the gate again. Calls that arrive while the gate is closed are
 * dropped. A run that throws leaves before the gate is closed, so the gate
 * stays open and no timer is started.
 */
module Throttling {
  import opened Options

  /**
   * What can happen to a throttle: a call of the throttled handler, where
   * `throws` says whether the wrapped function would throw if applied, or
   * the expiry of its timer.
   */
  datatype GateEvent = Call(throws: bool) | TimerExpired

  /** The closure's captured state: the `inThrottle` flag and the interval its timer is set for. */
  class Throttle {
    var inThrottle: bool
    const limit: nat

    /** The flag starts out undefined, which the gate reads as open. */
    constructor (limit: nat)
      ensures !inThrottle && this.limit == limit
    {
      inThrottle := false;
      this.limit := limit;
    }

    /**
     * One call of the throttled function. `applied` says whether the wrapped
     * function is applied; `timer` is the delay of the timer started, or
     * `None` when none is. The wrapped function's own behaviour is the input `throws`:
     * when it throws, the flag and the timer lines after it are not reached.
     */
    method Invoke(throws: bool) returns (applied: bool, timer: Option<nat>)
      modifies this
      ensures applied <==> !old(inThrottle)
      ensures (if applied && !throws then 1 else 0) == Runs(old(inThrottle), [Call(throws)])
      ensures timer == (if applied && !throws then Some(limit) else None)
      ensures inThrottle == ClosedAfter(old(inThrottle), [Call(throws)])
    {
      applied := false;
      timer := None;
      if !inThrottle {
        applied := true;
        if !throws {
          inThrottle := true;
          timer := Some(limit);
        }
      }
    }

    /** The timer started by a run fires. */
    method Expire()
      modifies this
      ensures inThrottle == ClosedAfter(old(inThrottle), [TimerExpired])
      ensures !inThrottle
    {
      inThrottle := false;
    }
  }

  /** Whether the gate is closed after one event. */
  function Next(closed: bool, e: GateEvent): bool {
    match e
    case Call(throws) => closed || !throws
    case TimerExpired => false
  }

  /** Whether the gate is closed after a series of events. */
  function ClosedAfter(closed: bool, events: seq<GateEvent>): bool
    decreases |events|
  {
    if events == [] then closed
    else ClosedAfter(Next(closed, events[0]), events[1..])
  }

  /** How many calls in a series of events apply the wrapped function and return from it. */
  function Runs(closed: bool, events: seq<GateEvent>): nat
    decreases |events|
  {
    if events == [] then 0
    else (if events[0] == Call(false) && !closed then 1 else 0) + Runs(Next(closed, events[0]), events[1..])
  }

  function Expiries(events: seq<GateEvent>): nat
    decreases |events|
  {
    if events == [] then 0
    else (if events[0] == TimerExpired then 1 else 0) + Expiries(events[1..])
  }

  /**
   * The throttle's promise: over any series of events, the wrapped function
   * completes at most once more than the gate has been reopened by a timer,
   * and from a closed gate no more often than it has been reopened.
   */
  lemma {:induction false} RunsBound(closed: bool, events: seq<GateEvent>)
    ensures Runs(closed, events) <= (if closed then 0 else 1) + Expiries(events)
    decreases |events|
  {
    if events != [] {
      RunsBound(Next(closed, events[0]), events[1..]);
    }
  }

  /**
   * A call appended to any history completes a run exactly when the gate is
   * open after that history and the function returns; the gate is closed
   * after it unless it was open and the function threw.
   */
  lemma {:induction false} CallRunsIffOpen(closed: bool, events: seq<GateEvent>, throws: bool)
    ensures Runs(closed, events + [Call(throws)]) ==
            Runs(closed, events) + (if !throws && !ClosedAfter(closed, events) then 1 else 0)
    ensures ClosedAfter(closed, events + [Call(throws)]) == (ClosedAfter(closed, events) || !throws)
    decreases |events|
  {
    if events != [] {
      assert (events + [Call(throws)])[1..] == events[1..] + [Call(throws)];
      CallRunsIffOpen(Next(closed, events[0]), events[1..], throws);
    }
  }
}

/** The axis lock of scroll gestures (crates/gpui/src/gestures.rs). */
module Scroll {
  import opened Wrappers
  import opened Arithmetic

  datatype Axis = Vertical | Horizontal

  datatype TouchPhase = Started | Moved | Ended | Cancelled

  datatype Delta = Delta(x: real, y: real)

  const UNLOCK_PERCENT := 1.9
  const UNLOCK_LOWER_BOUND := 6.0
  /** In milliseconds. */
  const SCROLL_EVENT_SEPARATION: nat := 28

  datatype Event = Event(delta: Delta, phase: TouchPhase, now: nat)

  function Abs(x: real): real { if x < 0.0 then -x else x }

  /** Time between two instants; 0 when the later one comes first. */
  function DurationSince(now: nat, earlier: nat): nat { if now < earlier then 0 else now - earlier }

  /** The fields of `OngoingScroll`. */
  datatype Lock = Lock(lastEvent: Option<nat>, axis: Option<Axis>)

  const RELEASED := Lock(None, None)

  predicate Ends(e: Event) { e.phase.Ended? || e.phase.Cancelled? }

  predicate IsZero(d: Delta) { d.x == 0.0 && d.y == 0.0 }

  /** The event begins a gesture: explicitly, or after a pause. */
  predicate StartsGesture(s: Lock, e: Event) {
    && !Ends(e) && !IsZero(e.delta)
    && (e.phase.Started? || s.lastEvent.None? || DurationSince(e.now, s.lastEvent.value) >= SCROLL_EVENT_SEPARATION)
  }

  class OngoingScroll {
    var lastEvent: Option<nat>
    var axis: Option<Axis>

    constructor ()
      ensures State() == RELEASED
    {
      lastEvent, axis := None, None;
    }

    ghost function State(): Lock
      reads this
    {
      Lock(lastEvent, axis)
    }

    method FilterAt(delta: Delta, touchPhase: TouchPhase, now: nat) returns (filtered: Delta)
      modifies this
      ensures (State(), filtered) == Filter(old(State()), Event(delta, touchPhase, now))
      // The end of a gesture forgets it; an event without movement changes nothing, unless it starts a gesture.
      ensures touchPhase.Ended? || touchPhase.Cancelled? ==> lastEvent == None && axis == None && filtered == delta
      ensures touchPhase.Moved? && delta == Delta(0.0, 0.0) ==>
                lastEvent == old(lastEvent) && axis == old(axis) && filtered == delta
      ensures touchPhase.Started? && delta == Delta(0.0, 0.0) ==> lastEvent == None && axis == None && filtered == delta
      // The start of a gesture locks onto the axis moved along most, vertical on a tie.
      ensures var x, y := if delta.x < 0.0 then -delta.x else delta.x, if delta.y < 0.0 then -delta.y else delta.y;
              (touchPhase.Started? || (touchPhase.Moved? && (old(lastEvent).None? || now >= old(lastEvent).value + 28)))
              && (x > 0.0 || y > 0.0) ==>
                && lastEvent == Some(now)
                && if x <= y then axis == Some(Vertical) && filtered == Delta(0.0, delta.y)
                   else axis == Some(Horizontal) && filtered == Delta(delta.x, 0.0)
      // Within a gesture a lock is kept, unless the event is long and clearly off the axis.
      ensures var x, y := if delta.x < 0.0 then -delta.x else delta.x, if delta.y < 0.0 then -delta.y else delta.y;
              touchPhase.Moved? && old(lastEvent).Some? && now < old(lastEvent).value + 28 && (x > 0.0 || y > 0.0) ==>
                && lastEvent == Some(now)
                && if old(axis) == Some(Vertical) && !(x >= 6.0 && x > y && x >= 1.9 * y) then
                     axis == Some(Vertical) && filtered == Delta(0.0, delta.y)
                   else if old(axis) == Some(Horizontal) && !(y >= 6.0 && y > x && y >= 1.9 * x) then
                     axis == Some(Horizontal) && filtered == Delta(delta.x, 0.0)
                   else
                     axis == None && filtered == delta
    {
      filtered := delta;
      if touchPhase.Ended? || touchPhase.Cancelled? {
        lastEvent := None;
        axis := None;
        return;
      }
      var x := Abs(delta.x);
      var y := Abs(delta.y);
      if x == 0.0 && y == 0.0 {
        if touchPhase.Started? {
          lastEvent := None;
          axis := None;
        }
        return;
      }
      var startsNewGesture :=
        touchPhase.Started? || lastEvent.None? || DurationSince(now, lastEvent.value) >= SCROLL_EVENT_SEPARATION;
      var newAxis := axis;
      if startsNewGesture {
        newAxis := if x <= y then Some(Vertical) else Some(Horizontal);
      } else if Max(x, y) >= UNLOCK_LOWER_BOUND {
        match newAxis {
          case Some(Vertical) => if x > y && x >= y * UNLOCK_PERCENT { newAxis := None; }
          case Some(Horizontal) => if y > x && y >= x * UNLOCK_PERCENT { newAxis := None; }
          case None =>
        }
      }
      lastEvent := Some(now);
      axis := newAxis;
      match newAxis {
        case Some(Vertical) => filtered := filtered.(x := 0.0);
        case Some(Horizontal) => filtered := filtered.(y := 0.0);
        case None =>
      }
    }
  }

  // ----- The lock as a function of the events ---------------------------------------

  /** The axis to lock onto at the start of a gesture: the one moved along most, vertical on a tie. */
  function Dominant(d: Delta): Axis {
    if Abs(d.x) <= Abs(d.y) then Vertical else Horizontal
  }

  /** How far the delta goes along an axis, and off it. */
  function Along(axis: Axis, d: Delta): real { if axis == Vertical then Abs(d.y) else Abs(d.x) }

  function Off(axis: Axis, d: Delta): real { if axis == Vertical then Abs(d.x) else Abs(d.y) }

  function Keep(axis: Axis, d: Delta): Delta { if axis == Vertical then d.(x := 0.0) else d.(y := 0.0) }

  /** The delta breaks out of the lock: long, and clearly off the axis. */
  predicate BreaksOut(axis: Axis, d: Delta) {
    && (Along(axis, d) >= UNLOCK_LOWER_BOUND || Off(axis, d) >= UNLOCK_LOWER_BOUND)
    && Off(axis, d) > Along(axis, d) && Off(axis, d) >= Along(axis, d) * UNLOCK_PERCENT
  }

  function NextAxis(s: Lock, e: Event): Option<Axis> {
    if StartsGesture(s, e) then Some(Dominant(e.delta))
    else if s.axis.Some? && BreaksOut(s.axis.value, e.delta) then None
    else s.axis
  }

  function Filter(s: Lock, e: Event): (Lock, Delta) {
    if Ends(e) then (RELEASED, e.delta)
    else if IsZero(e.delta) then (if e.phase.Started? then RELEASED else s, e.delta)
    else
      var axis := NextAxis(s, e);
      (Lock(Some(e.now), axis), if axis.Some? then Keep(axis.value, e.delta) else e.delta)
  }

  /** What one event may change in the delta: nothing, or a component that was short or clearly the smaller one. */
  lemma FilterZeroesOnlyOffAxis(s: Lock, e: Event)
    ensures var (s', d) := Filter(s, e);
            d == e.delta
            || (s'.axis.Some? && d == Keep(s'.axis.value, e.delta)
                && (Off(s'.axis.value, e.delta) < UNLOCK_LOWER_BOUND
                    || Off(s'.axis.value, e.delta) < Along(s'.axis.value, e.delta) * UNLOCK_PERCENT))
  {}

  // ----- Runs -----------------------------------------------------------------------

  function Run(s: Lock, events: seq<Event>): Lock {
    if events == [] then s else Filter(Run(s, events[..|events| - 1]), events[|events| - 1]).0
  }

  /** No event of the run begins a gesture. */
  ghost predicate WithinGesture(s: Lock, events: seq<Event>) {
    forall k :: 0 <= k < |events| ==> !StartsGesture(Run(s, events[..k]), events[k])
  }

  /** Until the next gesture begins, the lock stays on its axis or is given up for good. */
  lemma {:induction false} LockNeverSwitches(s: Lock, events: seq<Event>)
    requires WithinGesture(s, events)
    ensures Run(s, events).axis == s.axis || Run(s, events).axis == None
  {
    if events != [] {
      var front := events[..|events| - 1];
      forall k | 0 <= k < |front| ensures !StartsGesture(Run(s, front[..k]), front[k]) {
        assert front[..k] == events[..k];
      }
      LockNeverSwitches(s, front);
    }
  }

  /** Whatever the events, a lock is held only while a last event is remembered. */
  lemma {:induction false} LockedMeansRemembered(events: seq<Event>)
    ensures Run(RELEASED, events).axis.Some? ==> Run(RELEASED, events).lastEvent.Some?
  {
    if events != [] { LockedMeansRemembered(events[..|events| - 1]); }
  }
}

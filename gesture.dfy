/**
 * The debounce/cooldown state machine of gesture-control/main.py
 * (`detect_gesture` over the module globals `last_gesture_time` and
 * `last_gesture_type`) and the camera loop's dispatch of its results to
 * `on()` and `off()`.
 */
module GestureControl {
  import opened Options
  import opened HandFingers
  import opened Seqs

  /** The two gestures `detect_gesture` can report: 'open' and 'closed'. */
  datatype Kind = Open | Closed

  /** `cooldown_time`: seconds that must pass after an emission before the next frame is looked at. */
  const Cooldown: real := 1.0

  /** At least this many extended fingers make an open hand. */
  const OpenThreshold: nat := 4

  /** At most this many extended fingers make a closed fist. */
  const ClosedThreshold: nat := 1

  /** The pair of globals `detect_gesture` reads and writes. */
  datatype DebounceState = DebounceState(lastTime: real, lastType: Option<Kind>)

  /** The globals as the module initialises them: time 0 (not minus infinity) and no gesture. */
  const Initial: DebounceState := DebounceState(0.0, None)

  /** A detected hand has the full 21-landmark topology; "no hand" is always acceptable. */
  predicate WellFormed(hand: Option<seq<Landmark>>) {
    hand.Some? ==> |hand.value| >= HandSize
  }

  /**
   * One call of `detect_gesture`, as a function of the globals before the
   * call: the globals after it and the value returned. Absent hands and
   * frames inside the cooldown window are rejected before the fingers are
   * counted; an emission must differ from the gesture last emitted.
   */
  function Step(s: DebounceState, hand: Option<seq<Landmark>>, t: real): (r: (DebounceState, Option<Kind>))
    requires WellFormed(hand)
    ensures hand.None? ==> r == (s, None)
    ensures hand.Some? && t - s.lastTime < Cooldown ==> r == (s, None)
    ensures r.1 == Some(Open) <==>
      hand.Some? && t - s.lastTime >= Cooldown && CountFingers(hand.value) >= OpenThreshold && s.lastType != Some(Open)
    ensures r.1 == Some(Closed) <==>
      hand.Some? && t - s.lastTime >= Cooldown && CountFingers(hand.value) <= ClosedThreshold && s.lastType != Some(Closed)
    ensures hand.Some? && ClosedThreshold < CountFingers(hand.value) < OpenThreshold ==> r == (s, None)
    ensures r.1.None? ==> r.0 == s
    ensures r.1.Some? ==> r.0 == DebounceState(t, r.1) && r.1 != s.lastType && t - s.lastTime >= Cooldown
  {
    if hand.None? then (s, None)
    else if t - s.lastTime < Cooldown then (s, None)
    else
      var fingers := CountFingers(hand.value);
      if fingers >= OpenThreshold && s.lastType != Some(Open) then (DebounceState(t, Some(Open)), Some(Open))
      else if fingers <= ClosedThreshold && s.lastType != Some(Closed) then (DebounceState(t, Some(Closed)), Some(Closed))
      else (s, None)
  }

  /** The detector's globals, held as the fields of one object. */
  class GestureDetector {
    var lastTime: real
    var lastType: Option<Kind>

    constructor ()
      ensures State() == Initial
    {
      lastTime := 0.0;
      lastType := None;
    }

    /** The abstract state the fields hold. */
    function State(): DebounceState
      reads this
    {
      DebounceState(lastTime, lastType)
    }

    /** `detect_gesture(hand_landmarks, current_time)`. */
    method Detect(hand: Option<seq<Landmark>>, t: real) returns (g: Option<Kind>)
      requires WellFormed(hand)
      modifies this
      ensures (State(), g) == Step(old(State()), hand, t)
      ensures g.None? ==> lastTime == old(lastTime) && lastType == old(lastType)
      ensures g.Some? ==> lastTime == t && lastType == g
    {
      if hand.None? {
        return None;
      }
      if t - lastTime < Cooldown {
        return None;
      }
      var fingers := CountFingers(hand.value);
      if fingers >= OpenThreshold && lastType != Some(Open) {
        lastTime := t;
        lastType := Some(Open);
        return Some(Open);
      } else if fingers <= ClosedThreshold && lastType != Some(Closed) {
        lastTime := t;
        lastType := Some(Closed);
        return Some(Closed);
      }
      return None;
    }
  }

  /** One tick of the camera loop: the time read and the first detected hand, if any. */
  datatype Frame = Frame(hand: Option<seq<Landmark>>, time: real)

  /** A gesture `detect_gesture` returned, with the time of the frame that produced it. */
  datatype Event = Event(kind: Kind, time: real)

  predicate AllWellFormed(frames: seq<Frame>) {
    forall i :: 0 <= i < |frames| ==> WellFormed(frames[i].hand)
  }

  /** The globals after a run of frames from `s`, and the gestures emitted, in order. */
  function Run(s: DebounceState, frames: seq<Frame>): (r: (DebounceState, seq<Event>))
    requires AllWellFormed(frames)
    ensures |r.1| <= |frames|
    ensures r.1 == [] ==> r.0 == s
  {
    if frames == [] then (s, [])
    else
      var (mid, events) := Run(s, frames[..|frames| - 1]);
      var last := frames[|frames| - 1];
      var (next, g) := Step(mid, last.hand, last.time);
      if g.Some? then (next, events + [Event(g.value, last.time)]) else (next, events)
  }

  /** Every prefix of well-formed frames is well-formed. */
  lemma WellFormedPrefix(frames: seq<Frame>, n: nat)
    requires AllWellFormed(frames) && n <= |frames|
    ensures AllWellFormed(frames[..n])
  {
  }

  /** One more frame takes one more step from the state reached so far. */
  lemma RunSnoc(s: DebounceState, frames: seq<Frame>, i: nat)
    requires AllWellFormed(frames) && i < |frames|
    ensures AllWellFormed(frames[..i]) && AllWellFormed(frames[..i + 1])
    ensures var before := Run(s, frames[..i]);
      var step := Step(before.0, frames[i].hand, frames[i].time);
      Run(s, frames[..i + 1])
        == (step.0, if step.1.Some? then before.1 + [Event(step.1.value, frames[i].time)] else before.1)
  {
    WellFormedPrefix(frames, i);
    WellFormedPrefix(frames, i + 1);
    TakeTake(frames, i + 1, i);
  }

  /** Consecutive emissions are of opposite kinds. */
  predicate Alternating(events: seq<Event>) {
    forall i :: 0 <= i < |events| - 1 ==> events[i].kind != events[i + 1].kind
  }

  /** Consecutive emissions are at least a cooldown apart. */
  predicate Spaced(events: seq<Event>) {
    forall i :: 0 <= i < |events| - 1 ==> events[i + 1].time - events[i].time >= Cooldown
  }

  /**
   * Over any sequence of frames, whatever the order of their timestamps,
   * emissions alternate and are spaced by the cooldown; the first one
   * differs from, and is a cooldown after, the state the run starts from;
   * and the state afterwards records the last emission (or is unchanged
   * when nothing was emitted).
   */
  lemma {:induction false} RunAlternatesAndSpaces(s: DebounceState, frames: seq<Frame>)
    requires AllWellFormed(frames)
    ensures var (final, events) := Run(s, frames);
      && |events| <= |frames|
      && Alternating(events)
      && Spaced(events)
      && (events == [] ==> final == s)
      && (events != [] ==>
            && final == DebounceState(events[|events| - 1].time, Some(events[|events| - 1].kind))
            && Some(events[0].kind) != s.lastType
            && events[0].time - s.lastTime >= Cooldown)
  {
    if frames != [] {
      var prefix := frames[..|frames| - 1];
      WellFormedPrefix(frames, |frames| - 1);
      RunAlternatesAndSpaces(s, prefix);
    }
  }

  /**
   * A hand that keeps showing the gesture already recorded (or shows no
   * decisive gesture, or is absent) never fires again, however long it is
   * held: the state stays as it was and nothing is emitted.
   */
  lemma {:induction false} HeldGestureNeverRefires(s: DebounceState, frames: seq<Frame>)
    requires AllWellFormed(frames)
    requires forall i :: 0 <= i < |frames| && frames[i].hand.Some? ==>
      (CountFingers(frames[i].hand.value) >= OpenThreshold ==> s.lastType == Some(Open)) &&
      (CountFingers(frames[i].hand.value) <= ClosedThreshold ==> s.lastType == Some(Closed))
    ensures Run(s, frames) == (s, [])
  {
    if frames != [] {
      var prefix := frames[..|frames| - 1];
      forall i | 0 <= i < |prefix|
        ensures prefix[i] == frames[i]
      {
      }
      HeldGestureNeverRefires(s, prefix);
    }
  }

  /** Because the last emission time starts at 0, a frame before time `Cooldown` never emits from the initial state. */
  lemma FirstCooldownSuppressed(hand: Option<seq<Landmark>>, t: real)
    requires WellFormed(hand)
    requires t < Cooldown
    ensures Step(Initial, hand, t) == (Initial, None)
  {
  }

  /** The handler the camera loop calls for an emission, with the frame time it is called at. */
  datatype Call = On(at: real) | Off(at: real)

  function Handler(e: Event): (c: Call)
    ensures c.On? <==> e.kind == Open
    ensures c.Off? <==> e.kind == Closed
    ensures c.at == e.time
  {
    match e.kind
    case Open => On(e.time)
    case Closed => Off(e.time)
  }

  /** The handler calls for a sequence of emissions: one call per emission, in order. */
  function Dispatch(events: seq<Event>): (calls: seq<Call>)
    ensures |calls| == |events|
    ensures forall i :: 0 <= i < |events| ==> calls[i] == Handler(events[i])
  {
    if events == [] then [] else Dispatch(events[..|events| - 1]) + [Handler(events[|events| - 1])]
  }

  /** Dispatching one more emission appends its handler call. */
  lemma DispatchSnoc(events: seq<Event>, e: Event)
    ensures Dispatch(events + [e]) == Dispatch(events) + [Handler(e)]
  {
    assert (events + [e])[..|events|] == events;
  }

  /**
   * The camera loop of `main`, reduced to what reaches the handlers: a
   * detector starting from the module's initial globals, one
   * `detect_gesture` per frame, and `on()` for 'open' or `off()` for
   * 'closed'. Calls alternate between `on()` and `off()`, are a cooldown
   * apart, and the first comes no earlier than time `Cooldown`.
   */
  method ControlLoop(frames: seq<Frame>) returns (calls: seq<Call>)
    requires AllWellFormed(frames)
    ensures calls == Dispatch(Run(Initial, frames).1)
    ensures forall i :: 0 <= i < |calls| - 1 ==> calls[i].On? != calls[i + 1].On?
    ensures forall i :: 0 <= i < |calls| - 1 ==> calls[i + 1].at - calls[i].at >= Cooldown
    ensures calls != [] ==> calls[0].at >= Cooldown
  {
    var detector := new GestureDetector();
    calls := [];
    ghost var events: seq<Event> := [];
    for i := 0 to |frames|
      invariant AllWellFormed(frames[..i])
      invariant Run(Initial, frames[..i]) == (detector.State(), events)
      invariant calls == Dispatch(events)
    {
      RunSnoc(Initial, frames, i);
      var g := detector.Detect(frames[i].hand, frames[i].time);
      if g == Some(Open) {
        DispatchSnoc(events, Event(Open, frames[i].time));
        calls := calls + [On(frames[i].time)];
        events := events + [Event(Open, frames[i].time)];
      } else if g == Some(Closed) {
        DispatchSnoc(events, Event(Closed, frames[i].time));
        calls := calls + [Off(frames[i].time)];
        events := events + [Event(Closed, frames[i].time)];
      }
    }
    assert frames[..|frames|] == frames;
    RunAlternatesAndSpaces(Initial, frames);
  }
}

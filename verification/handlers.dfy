/** The four per-variant tick handlers. Each is a total transition of one
    action's `(isPressed, wasPressed, lastPressTime)` given whether its button
    is asserted and the tick's clock reading, and it yields the keyboard
    events it emits, in emission order. */
module Handlers {
  import opened Types
  import opened Keyboard
  import opened CString
  import opened Actions

  /** The action after a handler ran, and what the handler sent to the keyboard. */
  datatype Outcome = Outcome(action: KeyAction, events: seq<Event>)

  /** Activation shared by PRESS, RELEASE and MACRO: emit the presses, mark the
      action active and restart its timer. */
  function Activate(a: KeyAction, now: Millis, presses: seq<Event>): Outcome
  {
    Outcome(a.(isPressed := true, lastPressTime := now), presses)
  }

  /** The auto-release step shared by PRESS, RELEASE and MACRO: an active action
      whose sensitivity has elapsed emits `release` and becomes inactive. */
  function Expire(a: KeyAction, now: Millis, release: Event): Outcome
  {
    if a.isPressed && TimedOut(now, a.lastPressTime, a.sensitivity) then
      Outcome(a.(isPressed := false), [release])
    else
      Outcome(a, [])
  }

  /** A rising edge: the button is asserted now and was not on the previous tick. */
  predicate RisingEdge(a: KeyAction, buttonPressed: bool)
  {
    buttonPressed && !a.wasPressed
  }

  /** PRESS: press whenever the button is asserted and the key is not down,
      release once the sensitivity has elapsed, whatever the button does. */
  function HandlePress(a: KeyAction, buttonPressed: bool, now: Millis): (r: Outcome)
    requires |a.keys| >= 1
    ensures SameConfig(a, r.action) && r.action.wasPressed == a.wasPressed
    ensures forall e :: e in r.events ==> e == Press(a.keys[0]) || e == Release(a.keys[0])
    ensures Press(a.keys[0]) in r.events <==> buttonPressed && !a.isPressed
    ensures Release(a.keys[0]) in r.events <==> (a.isPressed || buttonPressed) && !r.action.isPressed
    ensures |r.events| == 2 ==> r.events == [Press(a.keys[0]), Release(a.keys[0])]
    ensures r.action.isPressed ==> !TimedOut(now, r.action.lastPressTime, a.sensitivity)
    ensures Release(a.keys[0]) in r.events ==> TimedOut(now, r.action.lastPressTime, a.sensitivity)
    ensures a.isPressed && TimedOut(now, a.lastPressTime, a.sensitivity) ==>
              r.events == [Release(a.keys[0])] && !r.action.isPressed
    ensures buttonPressed && !a.isPressed ==> r.action.lastPressTime == now
    ensures a.isPressed ==> r.action.lastPressTime == a.lastPressTime
    ensures !buttonPressed && !a.isPressed ==> r == Outcome(a, [])
    ensures |r.events| <= 2
  {
    var k := a.keys[0];
    var pressed := if buttonPressed && !a.isPressed then Activate(a, now, [Press(k)]) else Outcome(a, []);
    var released := Expire(pressed.action, now, Release(k));
    Outcome(released.action, pressed.events + released.events)
  }

  /** RELEASE: press on a rising edge only (restarting the timer even if the key
      is still down), release once the sensitivity has elapsed, and remember
      the button state for the next edge test. */
  function HandleRelease(a: KeyAction, buttonPressed: bool, now: Millis): (r: Outcome)
    requires |a.keys| >= 1
    ensures SameConfig(a, r.action) && r.action.wasPressed == buttonPressed
    ensures forall e :: e in r.events ==> e == Press(a.keys[0]) || e == Release(a.keys[0])
    ensures Press(a.keys[0]) in r.events <==> RisingEdge(a, buttonPressed)
    ensures Release(a.keys[0]) in r.events <==> (a.isPressed || RisingEdge(a, buttonPressed)) && !r.action.isPressed
    ensures |r.events| == 2 ==> r.events == [Press(a.keys[0]), Release(a.keys[0])]
    ensures RisingEdge(a, buttonPressed) ==> r.action.lastPressTime == now
    ensures !RisingEdge(a, buttonPressed) ==> r.action.lastPressTime == a.lastPressTime
    ensures r.action.isPressed ==> !TimedOut(now, r.action.lastPressTime, a.sensitivity)
    ensures Release(a.keys[0]) in r.events ==> TimedOut(now, r.action.lastPressTime, a.sensitivity)
    ensures !RisingEdge(a, buttonPressed) && a.isPressed && TimedOut(now, a.lastPressTime, a.sensitivity) ==>
              r.events == [Release(a.keys[0])] && !r.action.isPressed
    ensures !RisingEdge(a, buttonPressed) && a.isPressed && !TimedOut(now, a.lastPressTime, a.sensitivity) ==>
              r.events == [] && r.action.isPressed
    ensures !RisingEdge(a, buttonPressed) && !a.isPressed ==> r.events == [] && !r.action.isPressed
    ensures |r.events| <= 2
  {
    var k := a.keys[0];
    var pressed := if RisingEdge(a, buttonPressed) then Activate(a, now, [Press(k)]) else Outcome(a, []);
    var released := Expire(pressed.action, now, Release(k));
    Outcome(released.action.(wasPressed := buttonPressed), pressed.events + released.events)
  }

  /** MACRO: like RELEASE, but a rising edge presses every key in key order and
      the timeout releases everything at once. */
  function HandleMacro(a: KeyAction, buttonPressed: bool, now: Millis): (r: Outcome)
    ensures SameConfig(a, r.action) && r.action.wasPressed == buttonPressed
    ensures RisingEdge(a, buttonPressed) ==> |r.events| >= |a.keys| && r.events[..|a.keys|] == PressAll(a.keys)
    ensures !RisingEdge(a, buttonPressed) ==> forall e :: e in r.events ==> e == ReleaseAll
    ensures ReleaseAll in r.events <==> (a.isPressed || RisingEdge(a, buttonPressed)) && !r.action.isPressed
    ensures |r.events| == (if RisingEdge(a, buttonPressed) then |a.keys| else 0) + (if ReleaseAll in r.events then 1 else 0)
    ensures ReleaseAll in r.events ==> r.events[|r.events| - 1] == ReleaseAll
    ensures RisingEdge(a, buttonPressed) ==> r.action.lastPressTime == now
    ensures !RisingEdge(a, buttonPressed) ==> r.action.lastPressTime == a.lastPressTime
    ensures r.action.isPressed ==> !TimedOut(now, r.action.lastPressTime, a.sensitivity)
    ensures ReleaseAll in r.events ==> TimedOut(now, r.action.lastPressTime, a.sensitivity)
    ensures !RisingEdge(a, buttonPressed) && a.isPressed && TimedOut(now, a.lastPressTime, a.sensitivity) ==>
              r.events == [ReleaseAll] && !r.action.isPressed
    ensures !RisingEdge(a, buttonPressed) && a.isPressed && !TimedOut(now, a.lastPressTime, a.sensitivity) ==>
              r.events == [] && r.action.isPressed
    ensures !RisingEdge(a, buttonPressed) && !a.isPressed ==> r.events == [] && !r.action.isPressed
  {
    var pressed := if RisingEdge(a, buttonPressed) then Activate(a, now, PressAll(a.keys)) else Outcome(a, []);
    var released := Expire(pressed.action, now, ReleaseAll);
    Outcome(released.action.(wasPressed := buttonPressed), pressed.events + released.events)
  }

  /** PRINT: print the buffer's C string once per rising edge; it marks the
      action active and never clears it, and has no release step. */
  function HandlePrint(a: KeyAction, buttonPressed: bool, now: Millis): (r: Outcome)
    ensures SameConfig(a, r.action) && r.action.wasPressed == buttonPressed
    ensures r.action.lastPressTime == a.lastPressTime
    ensures |r.events| <= 1
    ensures forall e :: e in r.events ==> e == Print(CStr(a.printStr))
    ensures |r.events| == 1 <==> RisingEdge(a, buttonPressed)
    ensures r.action.isPressed <==> a.isPressed || RisingEdge(a, buttonPressed)
  {
    if RisingEdge(a, buttonPressed) then
      Outcome(a.(isPressed := true, wasPressed := buttonPressed), [Print(CStr(a.printStr))])
    else
      Outcome(a.(wasPressed := buttonPressed), [])
  }

  /** The `switch` on the action's type in `update()`. */
  function Dispatch(a: KeyAction, buttonPressed: bool, now: Millis): (r: Outcome)
    requires WellFormed(a)
    ensures SameConfig(a, r.action) && WellFormed(r.action)
  {
    match a.kind
    case PressKind => HandlePress(a, buttonPressed, now)
    case ReleaseKind => HandleRelease(a, buttonPressed, now)
    case MacroKind => HandleMacro(a, buttonPressed, now)
    case PrintKind => HandlePrint(a, buttonPressed, now)
  }
}

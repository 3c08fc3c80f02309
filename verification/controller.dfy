/** The controller: a bounded, ordered registry of key actions, the four
    registration operations, and the per-tick sweep `update()`. */
module Controller {
  import opened Types
  import opened Keyboard
  import opened CString
  import opened Actions
  import opened Handlers

  /** Capacity of the action array. */
  const MAX_ACTIONS: nat := 20

  /** Default sensitivities of the registration API, in milliseconds. */
  const DEFAULT_PRESS_SENSITIVITY: int := 50
  const DEFAULT_RELEASE_SENSITIVITY: int := 10
  const DEFAULT_MACRO_SENSITIVITY: int := 10
  const DEFAULT_PRINT_SENSITIVITY: int := 10

  /** The registered prefix of the action array; `actionCount` is its length. */
  datatype Controller = Controller(actions: seq<KeyAction>)
  {
    function ActionCount(): nat { |actions| }
  }

  /** The registry never outgrows its array and every record keeps its shape. */
  predicate Valid(c: Controller)
  {
    && |c.actions| <= MAX_ACTIONS
    && forall i :: 0 <= i < |c.actions| ==> WellFormed(c.actions[i])
  }

  /** A just-constructed controller has no actions. */
  function New(): (c: Controller)
    ensures c.ActionCount() == 0 && Valid(c)
  {
    Controller([])
  }

  /** The guard and slot claim every `add*` starts with: a full registry is
      left as it is, otherwise the record goes into slot `actionCount`. */
  function Append(c: Controller, a: KeyAction): Controller
  {
    if |c.actions| >= MAX_ACTIONS then c else Controller(c.actions + [a])
  }

  /** Registration leaves a full registry alone and otherwise adds exactly one
      record at the old `actionCount`, keeping every earlier record. */
  predicate Appended(c: Controller, r: Controller)
  {
    if |c.actions| >= MAX_ACTIONS then r == c
    else |r.actions| == |c.actions| + 1 && r.actions[..|c.actions|] == c.actions
  }

  /** The record in the slot just claimed, when there was one. */
  function Added(c: Controller, r: Controller): KeyAction
    requires |c.actions| < MAX_ACTIONS && Appended(c, r)
  {
    r.actions[|c.actions|]
  }

  /** A record as registration leaves it: not active, no edge seen, timer at 0. */
  predicate Unstarted(a: KeyAction)
  {
    !a.isPressed && !a.wasPressed && a.lastPressTime == 0
  }

  function AddKeyPress(c: Controller, pin: int, key: Byte, sensitivity: int := DEFAULT_PRESS_SENSITIVITY): (r: Controller)
    ensures Appended(c, r)
    ensures |c.actions| < MAX_ACTIONS ==>
              var a := Added(c, r);
              a.kind == PressKind && a.pin == pin && a.sensitivity == sensitivity
              && a.keys == [key] && a.KeyCount() == 1 && Unstarted(a)
    ensures Valid(c) ==> Valid(r)
  {
    Append(c, Fresh(pin, PressKind, sensitivity, [key], BlankBuffer()))
  }

  function AddKeyRelease(c: Controller, pin: int, key: Byte, sensitivity: int := DEFAULT_RELEASE_SENSITIVITY): (r: Controller)
    ensures Appended(c, r)
    ensures |c.actions| < MAX_ACTIONS ==>
              var a := Added(c, r);
              a.kind == ReleaseKind && a.pin == pin && a.sensitivity == sensitivity
              && a.keys == [key] && a.KeyCount() == 1 && Unstarted(a)
    ensures Valid(c) ==> Valid(r)
  {
    Append(c, Fresh(pin, ReleaseKind, sensitivity, [key], BlankBuffer()))
  }

  /** The key-copy loop of `addMacro`: each key is appended while the array has
      room, and skipped once it is full. */
  function CopyKeys(keys: seq<Byte>, stored: seq<Byte>): (r: seq<Byte>)
    requires |stored| <= MAX_MACRO_KEYS
    ensures r == stored + keys[..Min(|keys|, MAX_MACRO_KEYS - |stored|)]
    decreases |keys|
  {
    if keys == [] then stored
    else
      var next := if |stored| < MAX_MACRO_KEYS then stored + [keys[0]] else stored;
      var rest := CopyKeys(keys[1..], next);
      assert |stored| < MAX_MACRO_KEYS ==>
        keys[..Min(|keys|, MAX_MACRO_KEYS - |stored|)]
          == [keys[0]] + keys[1..][..Min(|keys| - 1, MAX_MACRO_KEYS - |next|)];
      rest
  }

  function AddMacro(c: Controller, pin: int, keys: seq<Byte>, sensitivity: int := DEFAULT_MACRO_SENSITIVITY): (r: Controller)
    ensures Appended(c, r)
    ensures |c.actions| < MAX_ACTIONS ==>
              var a := Added(c, r);
              a.kind == MacroKind && a.pin == pin && a.sensitivity == sensitivity
              && a.keys == keys[..Min(|keys|, MAX_MACRO_KEYS)] && Unstarted(a)
    ensures Valid(c) ==> Valid(r)
  {
    Append(c, Fresh(pin, MacroKind, sensitivity, CopyKeys(keys, []), BlankBuffer()))
  }

  function AddPrint(c: Controller, pin: int, text: seq<char>, sensitivity: int := DEFAULT_PRINT_SENSITIVITY): (r: Controller)
    ensures Appended(c, r)
    ensures |c.actions| < MAX_ACTIONS ==>
              var a := Added(c, r);
              a.kind == PrintKind && a.pin == pin && a.sensitivity == sensitivity
              && a.KeyCount() == 0 && Unstarted(a)
              && |a.printStr| == MAX_PRINT_LENGTH && a.printStr[MAX_PRINT_LENGTH - 1] == NUL
              && CStr(a.printStr) == CStr(text)[..Min(|CStr(text)|, MAX_PRINT_LENGTH - 1)]
    ensures Valid(c) ==> Valid(r)
  {
    PrintBufferReadsBack(text);
    Append(c, Fresh(pin, PrintKind, sensitivity, [], PrintBuffer(text)))
  }

  /** Called without a sensitivity, PRESS holds its key for 50 ms and the
      other three variants for 10 ms. */
  lemma DefaultSensitivities(c: Controller, pin: int, key: Byte, keys: seq<Byte>, text: seq<char>)
    requires |c.actions| < MAX_ACTIONS
    ensures Added(c, AddKeyPress(c, pin, key)).sensitivity == 50
    ensures Added(c, AddKeyRelease(c, pin, key)).sensitivity == 10
    ensures Added(c, AddMacro(c, pin, keys)).sensitivity == 10
    ensures Added(c, AddPrint(c, pin, text)).sensitivity == 10
  {
  }

  /** Pin levels as `digitalRead` returns them: true is HIGH. With the pull-up
      wiring a pressed button reads LOW. */
  type PinLevels = int -> bool

  /** The handler run for action `a` in a tick, with `buttonPressed` the
      negation of its pin's level. */
  function Step(a: KeyAction, level: PinLevels, now: Millis): Outcome
    requires WellFormed(a)
  {
    Dispatch(a, !level(a.pin), now)
  }

  /** Concatenation of per-action event logs, in order. */
  function Concat(logs: seq<seq<Event>>): seq<Event>
  {
    if logs == [] then [] else logs[0] + Concat(logs[1..])
  }

  lemma {:induction false} ConcatSnoc(logs: seq<seq<Event>>, last: seq<Event>)
    ensures Concat(logs + [last]) == Concat(logs) + last
  {
    if logs != [] {
      assert (logs + [last])[1..] == logs[1..] + [last];
      ConcatSnoc(logs[1..], last);
    } else {
      assert logs + [last] == [last];
    }
  }

  /** The events each action's handler emits in a tick, by action index. */
  function StepLogs(actions: seq<KeyAction>, level: PinLevels, now: Millis): (logs: seq<seq<Event>>)
    requires forall i :: 0 <= i < |actions| ==> WellFormed(actions[i])
    ensures |logs| == |actions|
    ensures forall i :: 0 <= i < |actions| ==> logs[i] == Step(actions[i], level, now).events
  {
    seq(|actions|, i requires 0 <= i < |actions| => Step(actions[i], level, now).events)
  }

  lemma StepLogsCons(actions: seq<KeyAction>, level: PinLevels, now: Millis)
    requires actions != [] && forall i :: 0 <= i < |actions| ==> WellFormed(actions[i])
    ensures Concat(StepLogs(actions, level, now))
            == Step(actions[0], level, now).events + Concat(StepLogs(actions[1..], level, now))
  {
    assert StepLogs(actions, level, now)[1..] == StepLogs(actions[1..], level, now);
  }

  /** The record each action's handler leaves behind in a tick, by action index. */
  function StepActions(actions: seq<KeyAction>, level: PinLevels, now: Millis): (acts: seq<KeyAction>)
    requires forall i :: 0 <= i < |actions| ==> WellFormed(actions[i])
    ensures |acts| == |actions|
    ensures forall i :: 0 <= i < |actions| ==> acts[i] == Step(actions[i], level, now).action
  {
    seq(|actions|, i requires 0 <= i < |actions| => Step(actions[i], level, now).action)
  }

  lemma StepActionsCons(actions: seq<KeyAction>, level: PinLevels, now: Millis)
    requires actions != [] && forall i :: 0 <= i < |actions| ==> WellFormed(actions[i])
    ensures StepActions(actions, level, now)
            == [Step(actions[0], level, now).action] + StepActions(actions[1..], level, now)
  {
    assert StepActions(actions, level, now)[1..] == StepActions(actions[1..], level, now);
  }

  /** One pass over the actions in index order: every action is replaced by its
      handler's result and the handlers' events are emitted one after another. */
  function Sweep(actions: seq<KeyAction>, level: PinLevels, now: Millis): (r: (seq<KeyAction>, seq<Event>))
    requires forall i :: 0 <= i < |actions| ==> WellFormed(actions[i])
    ensures |r.0| == |actions|
    ensures r.0 == StepActions(actions, level, now)
    ensures r.1 == Concat(StepLogs(actions, level, now))
  {
    if actions == [] then ([], [])
    else
      var head := Step(actions[0], level, now);
      var rest := Sweep(actions[1..], level, now);
      StepLogsCons(actions, level, now);
      StepActionsCons(actions, level, now);
      ([head.action] + rest.0, head.events + rest.1)
  }

  /** `update()`: one tick at clock reading `now` with the pins at `level`. */
  function Tick(c: Controller, level: PinLevels, now: Millis): (r: (Controller, seq<Event>))
    requires Valid(c)
    ensures Valid(r.0) && |r.0.actions| == |c.actions|
    ensures forall i :: 0 <= i < |c.actions| ==>
              SameConfig(c.actions[i], r.0.actions[i])
              && r.0.actions[i] == Step(c.actions[i], level, now).action
    ensures r.1 == Concat(StepLogs(c.actions, level, now))
  {
    var (actions, events) := Sweep(c.actions, level, now);
    (Controller(actions), events)
  }

  /** Any registry that agrees slot by slot with the handlers' results is the
      one `Tick` produces. */
  lemma TickUnique(c: Controller, level: PinLevels, now: Millis, d: Controller)
    requires Valid(c) && |d.actions| == |c.actions|
    requires forall i :: 0 <= i < |c.actions| ==> d.actions[i] == Step(c.actions[i], level, now).action
    ensures d == Tick(c, level, now).0
  {
    assert d.actions == Tick(c, level, now).0.actions;
  }

  /** One iteration of the `update()` loop keeps its invariant. */
  lemma UpdateStep(c: Controller, level: PinLevels, now: Millis, logs: seq<seq<Event>>,
                   actions: seq<KeyAction>, events: seq<Event>, i: nat)
    requires Valid(c) && logs == StepLogs(c.actions, level, now)
    requires i < |c.actions| && |actions| == |c.actions|
    requires forall j :: i <= j < |c.actions| ==> actions[j] == c.actions[j]
    requires events == Concat(logs[..i])
    ensures var o := Step(actions[i], level, now);
            && o.action == Step(c.actions[i], level, now).action
            && events + o.events == Concat(logs[..i + 1])
  {
    assert actions[i] == c.actions[i];
    assert logs[..i + 1] == logs[..i] + [logs[i]];
    ConcatSnoc(logs[..i], logs[i]);
  }

  /** `update()` as the source writes it: a loop over slots `0..actionCount-1`
      that rewrites slot `i` alone and appends that handler's events. */
  method Update(c: Controller, level: PinLevels, now: Millis) returns (c': Controller, events: seq<Event>)
    requires Valid(c)
    ensures Valid(c') && |c'.actions| == |c.actions|
    ensures forall i :: 0 <= i < |c.actions| ==> c'.actions[i] == Step(c.actions[i], level, now).action
    ensures events == Concat(StepLogs(c.actions, level, now))
    ensures (c', events) == Tick(c, level, now)
  {
    var logs := StepLogs(c.actions, level, now);
    var actions := c.actions;
    events := [];
    var i := 0;
    while i < |c.actions|
      invariant 0 <= i <= |c.actions| && |actions| == |c.actions|
      invariant forall j :: 0 <= j < i ==> actions[j] == Step(c.actions[j], level, now).action
      invariant forall j :: i <= j < |c.actions| ==> actions[j] == c.actions[j]
      invariant events == Concat(logs[..i])
    {
      var o := Step(actions[i], level, now);
      UpdateStep(c, level, now, logs, actions, events, i);
      actions := actions[i := o.action];
      events := events + o.events;
      i := i + 1;
    }
    assert logs[..i] == logs;
    c' := Controller(actions);
    TickUnique(c, level, now, c');
  }
}

/** Multi-tick behaviour: one action driven through a sequence of ticks, and the
    whole controller driven through a sequence of ticks, with what the event
    log then contains. */
module Traces {
  import opened Types
  import opened Keyboard
  import opened Actions
  import opened Handlers
  import opened Controller

  /** What one action sees in one tick: its button state and the clock. */
  datatype Sample = Sample(pressed: bool, now: Millis)

  /** One action run through consecutive ticks; its events in emission order. */
  function Run(a: KeyAction, samples: seq<Sample>): (r: Outcome)
    requires WellFormed(a)
    ensures SameConfig(a, r.action) && WellFormed(r.action)
    decreases |samples|
  {
    if samples == [] then Outcome(a, [])
    else
      var first := Dispatch(a, samples[0].pressed, samples[0].now);
      var rest := Run(first.action, samples[1..]);
      Outcome(rest.action, first.events + rest.events)
  }

  /** A single tick is the action's handler. */
  lemma RunOne(a: KeyAction, x: Sample)
    requires WellFormed(a)
    ensures Run(a, [x]) == Dispatch(a, x.pressed, x.now)
  {
    assert [x][1..] == [];
  }

  /** Two ticks are the handler twice. */
  lemma RunTwo(a: KeyAction, x: Sample, y: Sample)
    requires WellFormed(a)
    ensures var o1 := Dispatch(a, x.pressed, x.now);
            var o2 := Dispatch(o1.action, y.pressed, y.now);
            Run(a, [x, y]) == Outcome(o2.action, o1.events + o2.events)
  {
    var o1 := Dispatch(a, x.pressed, x.now);
    assert [x, y][1..] == [y];
    RunOne(o1.action, y);
  }

  /** Runs compose: running two stretches of ticks one after the other is
      running their concatenation, and the logs concatenate. */
  lemma {:induction false} RunAppend(a: KeyAction, s: seq<Sample>, t: seq<Sample>)
    requires WellFormed(a)
    ensures var r := Run(a, s);
            var r2 := Run(r.action, t);
            Run(a, s + t) == Outcome(r2.action, r.events + r2.events)
    decreases |s|
  {
    if s == [] {
      assert s + t == t;
    } else {
      var first := Dispatch(a, s[0].pressed, s[0].now);
      var mid := Run(first.action, s[1..]);
      var last := Run(mid.action, t);
      assert (s + t)[1..] == s[1..] + t;
      RunAppend(first.action, s[1..], t);
      AppendAssoc(first.events, mid.events, last.events);
    }
  }

  lemma AppendAssoc(x: seq<Event>, y: seq<Event>, z: seq<Event>)
    ensures x + (y + z) == (x + y) + z
  {
  }

  /** The number of ticks whose sample is asserted while the previous one
      (`was` for the first tick) was not. */
  function RisingEdges(was: bool, samples: seq<Sample>): nat
    decreases |samples|
  {
    if samples == [] then 0
    else (if samples[0].pressed && !was then 1 else 0) + RisingEdges(samples[0].pressed, samples[1..])
  }

  /** A prefix of a run has no more rising edges than the whole run. */
  lemma {:induction false} RisingEdgesPrefix(was: bool, samples: seq<Sample>, m: nat)
    requires m <= |samples|
    ensures RisingEdges(was, samples[..m]) <= RisingEdges(was, samples)
    decreases m
  {
    if m > 0 {
      assert samples[..m][1..] == samples[1..][..m - 1];
      RisingEdgesPrefix(samples[0].pressed, samples[1..], m - 1);
    }
  }

  function Ind(b: bool): nat { if b then 1 else 0 }

  /** Helper: the counts of a run split into its first tick and the rest. */
  lemma RunCounts(a: KeyAction, samples: seq<Sample>)
    requires WellFormed(a) && samples != []
    ensures var first := Dispatch(a, samples[0].pressed, samples[0].now);
            var rest := Run(first.action, samples[1..]);
            && Presses(Run(a, samples).events) == Presses(first.events) + Presses(rest.events)
            && Releases(Run(a, samples).events) == Releases(first.events) + Releases(rest.events)
            && Prints(Run(a, samples).events) == Prints(first.events) + Prints(rest.events)
  {
    var first := Dispatch(a, samples[0].pressed, samples[0].now);
    CountsAppend(first.events, Run(first.action, samples[1..]).events);
  }

  /** One PRESS tick, counted: a press only from inactive, a release only to
      inactive. */
  lemma PressStepCounts(a: KeyAction, pressed: bool, now: Millis)
    requires WellFormed(a) && a.kind == PressKind
    ensures var o := HandlePress(a, pressed, now);
            Presses(o.events) + Ind(a.isPressed) == Releases(o.events) + Ind(o.action.isPressed)
  {
    var k := a.keys[0];
    var evs := HandlePress(a, pressed, now).events;
    if |evs| == 2 {
      assert evs == [Press(k), Release(k)];
      assert evs[1..] == [Release(k)] && evs[1..][1..] == [];
      assert evs[1..][0] == Release(k) && !evs[1..][0].Press? && !evs[1..][0].Print?;
      assert Presses(evs[1..]) == 0 && Releases(evs[1..]) == 1 && Prints(evs[1..]) == 0;
      assert Press(k) in evs && Release(k) in evs;
    } else if |evs| == 1 {
      assert evs[1..] == [];
      if evs[0] == Press(k) {
        assert Press(k) in evs && Release(k) !in evs;
      } else {
        assert evs[0] == Release(k);
        assert Press(k) !in evs && Release(k) in evs;
      }
    } else {
      assert evs == [];
    }
  }

  /** PRESS never has more than one press outstanding: over any run, presses
      minus releases is exactly the change of `isPressed`. Starting inactive,
      the log is an alternation press, release, press, ... */
  lemma {:induction false} PressBalanced(a: KeyAction, samples: seq<Sample>)
    requires WellFormed(a) && a.kind == PressKind
    ensures var r := Run(a, samples);
            Presses(r.events) + Ind(a.isPressed) == Releases(r.events) + Ind(r.action.isPressed)
    decreases |samples|
  {
    if samples != [] {
      var first := Dispatch(a, samples[0].pressed, samples[0].now);
      RunCounts(a, samples);
      PressBalanced(first.action, samples[1..]);
      PressStepCounts(a, samples[0].pressed, samples[0].now);
    }
  }

  /** One RELEASE tick, counted: a press exactly on an edge, a release only to
      inactive. */
  lemma ReleaseStepCounts(a: KeyAction, pressed: bool, now: Millis)
    requires WellFormed(a) && a.kind == ReleaseKind
    ensures var o := HandleRelease(a, pressed, now);
            && Presses(o.events) == Ind(RisingEdge(a, pressed)) && Prints(o.events) == 0
            && Releases(o.events) + Ind(o.action.isPressed) <= Ind(RisingEdge(a, pressed)) + Ind(a.isPressed)
  {
    var k := a.keys[0];
    var evs := HandleRelease(a, pressed, now).events;
    if |evs| == 2 {
      assert evs == [Press(k), Release(k)];
      assert evs[1..] == [Release(k)] && evs[1..][1..] == [];
      assert evs[1..][0] == Release(k) && !evs[1..][0].Press? && !evs[1..][0].Print?;
      assert Presses(evs[1..]) == 0 && Releases(evs[1..]) == 1 && Prints(evs[1..]) == 0;
      assert Press(k) in evs && Release(k) in evs;
    } else if |evs| == 1 {
      assert evs[1..] == [];
      if evs[0] == Press(k) {
        assert Press(k) in evs && Release(k) !in evs;
      } else {
        assert evs[0] == Release(k);
        assert Press(k) !in evs && Release(k) in evs;
      }
    } else {
      assert evs == [];
    }
  }

  /** RELEASE presses its key exactly once per rising edge of the button, and
      releases at most once per press (a press may be repeated while the key
      is still down, so the count of releases can fall behind). */
  lemma {:induction false} ReleaseOnePressPerEdge(a: KeyAction, samples: seq<Sample>)
    requires WellFormed(a) && a.kind == ReleaseKind
    ensures var r := Run(a, samples);
            && Presses(r.events) == RisingEdges(a.wasPressed, samples)
            && Releases(r.events) + Ind(r.action.isPressed) <= Presses(r.events) + Ind(a.isPressed)
            && Prints(r.events) == 0
    decreases |samples|
  {
    if samples != [] {
      var first := Dispatch(a, samples[0].pressed, samples[0].now);
      RunCounts(a, samples);
      ReleaseOnePressPerEdge(first.action, samples[1..]);
      ReleaseStepCounts(a, samples[0].pressed, samples[0].now);
    }
  }

  /** One MACRO handler call, counted: the chord on an edge, at most one bulk
      release. */
  lemma MacroHandlerCounts(a: KeyAction, pressed: bool, now: Millis)
    requires WellFormed(a) && a.kind == MacroKind
    ensures var o := HandleMacro(a, pressed, now);
            && Presses(o.events) == (if RisingEdge(a, pressed) then |a.keys| else 0)
            && Releases(o.events) + Ind(o.action.isPressed) <= Ind(RisingEdge(a, pressed)) + Ind(a.isPressed)
            && Prints(o.events) == 0
  {
    var o := HandleMacro(a, pressed, now);
    var evs := o.events;
    var n := if RisingEdge(a, pressed) then |a.keys| else 0;
    var head := if RisingEdge(a, pressed) then PressAll(a.keys) else [];
    var tail := if ReleaseAll in evs then [ReleaseAll] else [];
    assert evs == head + tail by {
      assert evs == evs[..n] + evs[n..];
      assert evs[..n] == head;
      assert evs[n..] == tail;
    }
    PressAllCounts(a.keys);
    CountsAppend(head, tail);
  }

  /** One MACRO tick, counted, as the dispatch runs it. */
  lemma MacroStepCounts(a: KeyAction, pressed: bool, now: Millis)
    requires WellFormed(a) && a.kind == MacroKind
    ensures var o := Dispatch(a, pressed, now);
            && o.action.keys == a.keys && o.action.wasPressed == pressed
            && Presses(o.events) == (if RisingEdge(a, pressed) then |a.keys| else 0)
            && Releases(o.events) + Ind(o.action.isPressed) <= Ind(RisingEdge(a, pressed)) + Ind(a.isPressed)
            && Prints(o.events) == 0
  {
    assert Dispatch(a, pressed, now) == HandleMacro(a, pressed, now);
    MacroHandlerCounts(a, pressed, now);
  }

  lemma Distribute(k: int, x: int, y: int)
    ensures k * (x + y) == k * x + k * y
  {
  }

  /** One MACRO tick at the head of a run: its presses and rising edge added
      to those of the rest of the run. */
  lemma MacroChordStep(a: KeyAction, samples: seq<Sample>)
    requires WellFormed(a) && a.kind == MacroKind && samples != []
    ensures var first := Dispatch(a, samples[0].pressed, samples[0].now);
            var more := Presses(Run(first.action, samples[1..]).events);
            var edges := RisingEdges(first.action.wasPressed, samples[1..]);
            && WellFormed(first.action) && first.action.kind == MacroKind && first.action.keys == a.keys
            && (RisingEdge(a, samples[0].pressed) ==>
                  Presses(Run(a, samples).events) == |a.keys| + more && RisingEdges(a.wasPressed, samples) == 1 + edges)
            && (!RisingEdge(a, samples[0].pressed) ==>
                  Presses(Run(a, samples).events) == more && RisingEdges(a.wasPressed, samples) == edges)
  {
    RunCounts(a, samples);
    MacroStepCounts(a, samples[0].pressed, samples[0].now);
  }

  lemma ChordSum(k: int, n: int, rest: int, total: int, edges: int)
    requires rest == k * n
    requires (total == k + rest && edges == 1 + n) || (total == rest && edges == n)
    ensures total == k * edges
  {
    if edges == 1 + n {
      Distribute(k, 1, n);
    }
  }

  /** MACRO presses its whole key list once per rising edge. */
  lemma {:induction false} MacroChordCount(a: KeyAction, samples: seq<Sample>)
    requires WellFormed(a) && a.kind == MacroKind
    ensures Presses(Run(a, samples).events) == |a.keys| * RisingEdges(a.wasPressed, samples)
    decreases |samples|
  {
    if samples != [] {
      var first := Dispatch(a, samples[0].pressed, samples[0].now);
      MacroChordStep(a, samples);
      MacroChordCount(first.action, samples[1..]);
      ChordSum(|a.keys|, RisingEdges(first.action.wasPressed, samples[1..]),
               Presses(Run(first.action, samples[1..]).events),
               Presses(Run(a, samples).events), RisingEdges(a.wasPressed, samples));
    }
  }

  /** MACRO releases all keys at most once per activation and prints nothing. */
  lemma {:induction false} MacroReleaseBound(a: KeyAction, samples: seq<Sample>)
    requires WellFormed(a) && a.kind == MacroKind
    ensures var r := Run(a, samples);
            && Releases(r.events) + Ind(r.action.isPressed) <= RisingEdges(a.wasPressed, samples) + Ind(a.isPressed)
            && Prints(r.events) == 0
    decreases |samples|
  {
    if samples != [] {
      var first := Dispatch(a, samples[0].pressed, samples[0].now);
      RunCounts(a, samples);
      MacroReleaseBound(first.action, samples[1..]);
      MacroStepCounts(a, samples[0].pressed, samples[0].now);
    }
  }

  /** MACRO presses its whole key list once per rising edge and releases all
      keys at most once per activation. */
  lemma MacroOneChordPerEdge(a: KeyAction, samples: seq<Sample>)
    requires WellFormed(a) && a.kind == MacroKind
    ensures var r := Run(a, samples);
            && Presses(r.events) == |a.keys| * RisingEdges(a.wasPressed, samples)
            && Releases(r.events) + Ind(r.action.isPressed) <= RisingEdges(a.wasPressed, samples) + Ind(a.isPressed)
            && Prints(r.events) == 0
  {
    MacroChordCount(a, samples);
    MacroReleaseBound(a, samples);
  }

  /** PRINT prints its stored string exactly once per rising edge, never emits
      a key event, and once active stays active. */
  lemma {:induction false} PrintOncePerEdge(a: KeyAction, samples: seq<Sample>)
    requires WellFormed(a) && a.kind == PrintKind
    ensures var r := Run(a, samples);
            && Prints(r.events) == RisingEdges(a.wasPressed, samples)
            && Presses(r.events) == 0 && Releases(r.events) == 0
            && (a.isPressed ==> r.action.isPressed)
    decreases |samples|
  {
    if samples != [] {
      var first := Dispatch(a, samples[0].pressed, samples[0].now);
      RunCounts(a, samples);
      PrintOncePerEdge(first.action, samples[1..]);
      var evs := first.events;
      assert Prints(evs) == Ind(RisingEdge(a, samples[0].pressed)) && Presses(evs) == 0 && Releases(evs) == 0 by {
        if |evs| == 1 {
          assert evs[0].Print?;
        }
      }
    }
  }

  /** A button held asserted from before the run yields no rising edge. */
  lemma {:induction false} HeldButtonHasNoEdge(samples: seq<Sample>)
    requires forall i :: 0 <= i < |samples| ==> samples[i].pressed
    ensures RisingEdges(true, samples) == 0
    decreases |samples|
  {
    if samples != [] {
      HeldButtonHasNoEdge(samples[1..]);
    }
  }

  /** A RELEASE, MACRO or PRINT button held asserted from before the run
      presses no key and prints nothing, however long it is held. */
  lemma {:induction false} HeldButtonIsSilent(a: KeyAction, samples: seq<Sample>)
    requires WellFormed(a) && a.kind != PressKind && a.wasPressed
    requires forall i :: 0 <= i < |samples| ==> samples[i].pressed
    ensures Presses(Run(a, samples).events) == 0 && Prints(Run(a, samples).events) == 0
  {
    HeldButtonHasNoEdge(samples);
    match a.kind
    case ReleaseKind => ReleaseOnePressPerEdge(a, samples);
    case MacroKind => MacroOneChordPerEdge(a, samples);
    case PrintKind => PrintOncePerEdge(a, samples);
  }

  /** What one controller tick is given: pin levels and the clock reading. */
  datatype TickInput = TickInput(level: PinLevels, now: Millis)

  /** The controller driven through consecutive `update()` calls, with the
      concatenated event log. */
  function Ticks(c: Controller, inputs: seq<TickInput>): (r: (Controller, seq<Event>))
    requires Valid(c)
    ensures Valid(r.0) && |r.0.actions| == |c.actions|
    decreases |inputs|
  {
    if inputs == [] then (c, [])
    else
      var first := Tick(c, inputs[0].level, inputs[0].now);
      var rest := Ticks(first.0, inputs[1..]);
      (rest.0, first.1 + rest.1)
  }

  /** The samples one action sees across a run of ticks: its button is
      asserted when its pin reads LOW. */
  function SamplesFor(pin: int, inputs: seq<TickInput>): (s: seq<Sample>)
    ensures |s| == |inputs|
    ensures forall j :: 0 <= j < |inputs| ==> s[j] == Sample(!inputs[j].level(pin), inputs[j].now)
  {
    seq(|inputs|, j requires 0 <= j < |inputs| => Sample(!inputs[j].level(pin), inputs[j].now))
  }

  /** Actions are independent: after any number of ticks, action `i` is what
      its own handler makes of its own pin's samples, whatever the other
      actions are and whichever pins they share. */
  lemma {:induction false} TicksProject(c: Controller, inputs: seq<TickInput>, i: nat)
    requires Valid(c) && i < |c.actions|
    ensures Ticks(c, inputs).0.actions[i] == Run(c.actions[i], SamplesFor(c.actions[i].pin, inputs)).action
    decreases |inputs|
  {
    if inputs != [] {
      var first := Tick(c, inputs[0].level, inputs[0].now);
      TicksProject(first.0, inputs[1..], i);
      ProjectStep(c, inputs, i);
    }
  }

  /** The first tick of a run, seen from action `i`: its handler's step on the
      first sample, followed by the rest of its own samples. */
  lemma ProjectStep(c: Controller, inputs: seq<TickInput>, i: nat)
    requires Valid(c) && i < |c.actions| && inputs != []
    ensures var first := Tick(c, inputs[0].level, inputs[0].now).0;
            var a := c.actions[i];
            && first.actions[i].pin == a.pin
            && Run(a, SamplesFor(a.pin, inputs)).action == Run(first.actions[i], SamplesFor(a.pin, inputs[1..])).action
  {
    var a := c.actions[i];
    var s := SamplesFor(a.pin, inputs);
    assert s[1..] == SamplesFor(a.pin, inputs[1..]);
    assert s[0] == Sample(!inputs[0].level(a.pin), inputs[0].now);
  }

  /** One call of a registration operation, as a configuration sketch makes it. */
  datatype Registration =
    | KeyPressCall(pin: int, key: Byte, sensitivity: int)
    | KeyReleaseCall(pin: int, key: Byte, sensitivity: int)
    | MacroCall(pin: int, keys: seq<Byte>, sensitivity: int)
    | PrintCall(pin: int, text: seq<char>, sensitivity: int)

  function Register(c: Controller, call: Registration): Controller
  {
    match call
    case KeyPressCall(pin, key, s) => AddKeyPress(c, pin, key, s)
    case KeyReleaseCall(pin, key, s) => AddKeyRelease(c, pin, key, s)
    case MacroCall(pin, keys, s) => AddMacro(c, pin, keys, s)
    case PrintCall(pin, text, s) => AddPrint(c, pin, text, s)
  }

  function RegisterAll(c: Controller, calls: seq<Registration>): Controller
    decreases |calls|
  {
    if calls == [] then c else RegisterAll(Register(c, calls[0]), calls[1..])
  }

  /** Registering past capacity is the same as stopping at capacity: the
      registry ends with `min(count + calls, MAX_ACTIONS)` records, and the
      calls after the first `MAX_ACTIONS - count` have no effect. */
  lemma {:induction false} RegisterPastCapacity(c: Controller, calls: seq<Registration>)
    requires |c.actions| <= MAX_ACTIONS
    ensures |RegisterAll(c, calls).actions| == Min(|c.actions| + |calls|, MAX_ACTIONS)
    ensures RegisterAll(c, calls) == RegisterAll(c, calls[..Min(|calls|, MAX_ACTIONS - |c.actions|)])
    ensures RegisterAll(c, calls).actions[..|c.actions|] == c.actions
    decreases |calls|
  {
    if calls != [] {
      var next := Register(c, calls[0]);
      RegisterPastCapacity(next, calls[1..]);
      if |c.actions| >= MAX_ACTIONS {
        assert next == c;
        FullRegistryIgnoresCalls(c, calls[1..]);
      } else {
        assert calls[..Min(|calls|, MAX_ACTIONS - |c.actions|)][1..]
            == calls[1..][..Min(|calls| - 1, MAX_ACTIONS - |next.actions|)];
      }
    }
  }

  lemma {:induction false} FullRegistryIgnoresCalls(c: Controller, calls: seq<Registration>)
    requires |c.actions| >= MAX_ACTIONS
    ensures RegisterAll(c, calls) == c
    decreases |calls|
  {
    if calls != [] {
      FullRegistryIgnoresCalls(Register(c, calls[0]), calls[1..]);
    }
  }

  /** Any registration sequence from a new controller leaves a valid registry
      in which no action is active yet. */
  lemma {:induction false} RegisteredActionsStartInactive(c: Controller, calls: seq<Registration>)
    requires Valid(c)
    requires forall i :: 0 <= i < |c.actions| ==> Unstarted(c.actions[i])
    ensures Valid(RegisterAll(c, calls))
    ensures forall i :: 0 <= i < |RegisterAll(c, calls).actions| ==> Unstarted(RegisterAll(c, calls).actions[i])
    decreases |calls|
  {
    if calls != [] {
      var next := Register(c, calls[0]);
      RegisteredActionsStartInactive(next, calls[1..]);
    }
  }
}

/** The controller's handler quirks and single-button scenarios, stated for
    all tick sequences. */
module Scenarios {
  import opened Types
  import opened Keyboard
  import opened CString
  import opened Actions
  import opened Handlers
  import opened Controller
  import opened Traces

  /** PRESS keeps re-pressing while its button is held: a key that timed out
      on one tick is pressed again on the next one, with a fresh timer. */
  lemma PressRetriggersWhileHeld(a: KeyAction, t1: Millis, t2: Millis)
    requires WellFormed(a) && a.kind == PressKind
    requires a.isPressed && TimedOut(t1, a.lastPressTime, a.sensitivity)
    ensures var r := Run(a, [Sample(true, t1), Sample(true, t2)]);
            && |r.events| >= 2 && r.events[..2] == [Release(a.keys[0]), Press(a.keys[0])]
            && r.action.lastPressTime == t2
  {
    var first := HandlePress(a, true, t1);
    assert first.events == [Release(a.keys[0])];
    var second := HandlePress(first.action, true, t2);
    assert second.events[0] == Press(a.keys[0]);
    RunTwo(a, Sample(true, t1), Sample(true, t2));
  }

  /** With sensitivity 0 a PRESS action presses and releases in the same tick. */
  lemma PressZeroSensitivity(a: KeyAction, now: Millis)
    requires WellFormed(a) && a.kind == PressKind && a.sensitivity == 0
    requires !a.isPressed
    ensures var o := Dispatch(a, true, now);
            o.events == [Press(a.keys[0]), Release(a.keys[0])] && !o.action.isPressed
  {
  }

  /** RELEASE quirk: a new rising edge while the key is still down presses it
      again with no release in between, and restarts the timer. */
  lemma ReleaseRepressesWithoutRelease(a: KeyAction, t1: Millis, t2: Millis)
    requires WellFormed(a) && a.kind == ReleaseKind
    requires a.isPressed && a.wasPressed
    requires !TimedOut(t1, a.lastPressTime, a.sensitivity) && Threshold(a.sensitivity) > 0
    ensures var r := Run(a, [Sample(false, t1), Sample(true, t2)]);
            && r.events == [Press(a.keys[0])]
            && r.action.isPressed && r.action.lastPressTime == t2
  {
    var first := HandleRelease(a, false, t1);
    assert first.events == [];
    var second := HandleRelease(first.action, true, t2);
    assert !TimedOut(t2, t2, a.sensitivity);
    RunTwo(a, Sample(false, t1), Sample(true, t2));
    assert second.events == [Press(a.keys[0])];
  }

  /** MACRO shares the quirk: a second chord goes out with no bulk release. */
  lemma MacroRepressesWithoutRelease(a: KeyAction, t1: Millis, t2: Millis)
    requires WellFormed(a) && a.kind == MacroKind
    requires a.isPressed && a.wasPressed
    requires !TimedOut(t1, a.lastPressTime, a.sensitivity) && Threshold(a.sensitivity) > 0
    ensures var r := Run(a, [Sample(false, t1), Sample(true, t2)]);
            && r.events == PressAll(a.keys)
            && r.action.isPressed && r.action.lastPressTime == t2
  {
    var first := HandleMacro(a, false, t1);
    assert first.events == [];
    var second := HandleMacro(first.action, true, t2);
    assert !TimedOut(t2, t2, a.sensitivity);
    RunTwo(a, Sample(false, t1), Sample(true, t2));
    assert second.events == PressAll(a.keys);
  }

  /** An active RELEASE key stays down, and nothing is emitted, on every tick
      before its timeout while the button shows no new rising edge. */
  lemma {:induction false} ReleaseQuietUntilTimeout(d: KeyAction, samples: seq<Sample>)
    requires WellFormed(d) && d.kind == ReleaseKind && d.isPressed
    requires RisingEdges(d.wasPressed, samples) == 0
    requires forall i :: 0 <= i < |samples| ==> !TimedOut(samples[i].now, d.lastPressTime, d.sensitivity)
    ensures Run(d, samples).events == [] && Run(d, samples).action.isPressed
    ensures Run(d, samples).action.lastPressTime == d.lastPressTime
    decreases |samples|
  {
    if samples != [] {
      var first := HandleRelease(d, samples[0].pressed, samples[0].now);
      assert first.events == [] && first.action.isPressed;
      ReleaseQuietUntilTimeout(first.action, samples[1..]);
    }
  }

  /** An idle RELEASE action stays idle and silent while no rising edge comes. */
  lemma {:induction false} ReleaseIdleIsQuiet(d: KeyAction, samples: seq<Sample>)
    requires WellFormed(d) && d.kind == ReleaseKind && !d.isPressed
    requires RisingEdges(d.wasPressed, samples) == 0
    ensures Run(d, samples).events == [] && !Run(d, samples).action.isPressed
    decreases |samples|
  {
    if samples != [] {
      var first := HandleRelease(d, samples[0].pressed, samples[0].now);
      assert first.events == [] && !first.action.isPressed;
      ReleaseIdleIsQuiet(first.action, samples[1..]);
    }
  }

  /** The log of an active RELEASE action with no new rising edge, over the
      whole run: one release of the key, and the action ends idle. */
  lemma {:induction false} ReleaseExpiryLog(d: KeyAction, samples: seq<Sample>, j: nat)
    requires WellFormed(d) && d.kind == ReleaseKind && d.isPressed
    requires j < |samples| && RisingEdges(d.wasPressed, samples) == 0
    requires forall i :: 0 <= i < j ==> !TimedOut(samples[i].now, d.lastPressTime, d.sensitivity)
    requires TimedOut(samples[j].now, d.lastPressTime, d.sensitivity)
    ensures Run(d, samples).events == [Release(d.keys[0])] && !Run(d, samples).action.isPressed
    decreases |samples|
  {
    var first := HandleRelease(d, samples[0].pressed, samples[0].now);
    if j == 0 {
      assert first.events == [Release(d.keys[0])] && !first.action.isPressed;
      ReleaseIdleIsQuiet(first.action, samples[1..]);
    } else {
      assert first.events == [] && first.action.isPressed;
      forall i | 0 <= i < j - 1
        ensures !TimedOut(samples[1..][i].now, first.action.lastPressTime, d.sensitivity)
      {
        assert samples[1..][i] == samples[i + 1];
      }
      ReleaseExpiryLog(first.action, samples[1..], j - 1);
    }
  }

  /** An active RELEASE action with no new rising edge emits nothing before
      tick `j`, the first tick at or after its timeout, releases its key on
      tick `j`, and emits nothing after it. */
  lemma ReleaseExpiresOnce(d: KeyAction, samples: seq<Sample>, j: nat)
    requires WellFormed(d) && d.kind == ReleaseKind && d.isPressed
    requires j < |samples| && RisingEdges(d.wasPressed, samples) == 0
    requires forall i :: 0 <= i < j ==> !TimedOut(samples[i].now, d.lastPressTime, d.sensitivity)
    requires TimedOut(samples[j].now, d.lastPressTime, d.sensitivity)
    ensures Run(d, samples).events == [Release(d.keys[0])] && !Run(d, samples).action.isPressed
    ensures Run(d, samples[..j]).events == []
    ensures Run(d, samples[..j + 1]).events == [Release(d.keys[0])]
  {
    ReleaseExpiryLog(d, samples, j);
    var upTo := samples[..j + 1];
    assert Run(d, upTo).events == [Release(d.keys[0])] by {
      RisingEdgesPrefix(d.wasPressed, samples, j + 1);
      assert forall i :: 0 <= i <= j ==> upTo[i] == samples[i];
      ReleaseExpiryLog(d, upTo, j);
    }
    var before := samples[..j];
    assert Run(d, before).events == [] by {
      RisingEdgesPrefix(d.wasPressed, samples, j);
      assert forall i :: 0 <= i < j ==> before[i] == samples[i];
      ReleaseQuietUntilTimeout(d, before);
    }
  }

  /** The log of one RELEASE pulse over the whole run. */
  lemma ReleasePulseLog(a: KeyAction, samples: seq<Sample>, j: nat)
    requires WellFormed(a) && a.kind == ReleaseKind && !a.wasPressed
    requires j < |samples| && samples[0].pressed && RisingEdges(true, samples[1..]) == 0
    requires forall i :: 0 <= i < j ==> !TimedOut(samples[i].now, samples[0].now, a.sensitivity)
    requires TimedOut(samples[j].now, samples[0].now, a.sensitivity)
    ensures Run(a, samples).events == [Press(a.keys[0]), Release(a.keys[0])]
    ensures !Run(a, samples).action.isPressed
  {
    var first := HandleRelease(a, true, samples[0].now);
    if j == 0 {
      assert Press(a.keys[0]) in first.events && Release(a.keys[0]) in first.events;
      assert first.events == [Press(a.keys[0]), Release(a.keys[0])] && !first.action.isPressed;
      ReleaseIdleIsQuiet(first.action, samples[1..]);
    } else {
      assert !TimedOut(samples[0].now, samples[0].now, a.sensitivity);
      assert first.events == [Press(a.keys[0])];
      forall i | 0 <= i < j - 1
        ensures !TimedOut(samples[1..][i].now, first.action.lastPressTime, a.sensitivity)
      {
        assert samples[1..][i] == samples[i + 1];
      }
      ReleaseExpiryLog(first.action, samples[1..], j - 1);
    }
  }

  /** While a RELEASE pulse has not timed out, the log holds its press only. */
  lemma ReleasePulseHeld(a: KeyAction, samples: seq<Sample>, j: nat)
    requires WellFormed(a) && a.kind == ReleaseKind && !a.wasPressed
    requires 0 < j <= |samples| && samples[0].pressed && RisingEdges(true, samples[1..]) == 0
    requires forall i :: 0 <= i < j ==> !TimedOut(samples[i].now, samples[0].now, a.sensitivity)
    ensures Run(a, samples[..j]).events == [Press(a.keys[0])]
  {
    var first := HandleRelease(a, true, samples[0].now);
    assert first.events == [Press(a.keys[0])];
    var held := samples[1..][..j - 1];
    assert samples[..j][0] == samples[0] && samples[..j][1..] == held;
    RisingEdgesPrefix(true, samples[1..], j - 1);
    forall i | 0 <= i < |held|
      ensures !TimedOut(held[i].now, first.action.lastPressTime, a.sensitivity)
    {
      assert held[i] == samples[i + 1];
    }
    ReleaseQuietUntilTimeout(first.action, held);
  }

  /** RELEASE on one pulse of any length: the button goes down once (a rising
      edge on the first tick) and shows no further edge. Exactly one press and
      one release of the key come out: the press on the first tick, the
      release on tick `j`, the first tick at or after the timeout (the first
      tick itself when the sensitivity is 0), and nothing after it. */
  lemma ReleaseSinglePulse(a: KeyAction, samples: seq<Sample>, j: nat)
    requires WellFormed(a) && a.kind == ReleaseKind && !a.wasPressed
    requires j < |samples| && samples[0].pressed && RisingEdges(true, samples[1..]) == 0
    requires forall i :: 0 <= i < j ==> !TimedOut(samples[i].now, samples[0].now, a.sensitivity)
    requires TimedOut(samples[j].now, samples[0].now, a.sensitivity)
    ensures Run(a, samples).events == [Press(a.keys[0]), Release(a.keys[0])]
    ensures !Run(a, samples).action.isPressed
    ensures 0 < j ==> Run(a, samples[..j]).events == [Press(a.keys[0])]
    ensures Run(a, samples[..j + 1]).events == [Press(a.keys[0]), Release(a.keys[0])]
  {
    assert Run(a, samples).events == [Press(a.keys[0]), Release(a.keys[0])] && !Run(a, samples).action.isPressed by {
      ReleasePulseLog(a, samples, j);
    }
    var upTo := samples[..j + 1];
    assert Run(a, upTo).events == [Press(a.keys[0]), Release(a.keys[0])] by {
      RisingEdgesPrefix(true, samples[1..], j);
      assert upTo[1..] == samples[1..][..j];
      assert forall i :: 0 <= i <= j ==> upTo[i] == samples[i];
      ReleasePulseLog(a, upTo, j);
    }
    if 0 < j {
      assert Run(a, samples[..j]).events == [Press(a.keys[0])] by {
        ReleasePulseHeld(a, samples, j);
      }
    }
  }

  /** An active MACRO chord stays down, and nothing is emitted, on every tick
      before its timeout while the button shows no new rising edge. */
  lemma {:induction false} MacroQuietUntilTimeout(d: KeyAction, samples: seq<Sample>)
    requires WellFormed(d) && d.kind == MacroKind && d.isPressed
    requires RisingEdges(d.wasPressed, samples) == 0
    requires forall i :: 0 <= i < |samples| ==> !TimedOut(samples[i].now, d.lastPressTime, d.sensitivity)
    ensures Run(d, samples).events == [] && Run(d, samples).action.isPressed
    ensures Run(d, samples).action.lastPressTime == d.lastPressTime
    decreases |samples|
  {
    if samples != [] {
      var first := HandleMacro(d, samples[0].pressed, samples[0].now);
      assert first.events == [] && first.action.isPressed;
      MacroQuietUntilTimeout(first.action, samples[1..]);
    }
  }

  /** An idle MACRO action stays idle and silent while no rising edge comes. */
  lemma {:induction false} MacroIdleIsQuiet(d: KeyAction, samples: seq<Sample>)
    requires WellFormed(d) && d.kind == MacroKind && !d.isPressed
    requires RisingEdges(d.wasPressed, samples) == 0
    ensures Run(d, samples).events == [] && !Run(d, samples).action.isPressed
    decreases |samples|
  {
    if samples != [] {
      var first := HandleMacro(d, samples[0].pressed, samples[0].now);
      assert first.events == [] && !first.action.isPressed;
      MacroIdleIsQuiet(first.action, samples[1..]);
    }
  }

  /** The log of an active MACRO action with no new rising edge, over the
      whole run: one `ReleaseAll`, and the action ends idle. */
  lemma {:induction false} MacroExpiryLog(d: KeyAction, samples: seq<Sample>, j: nat)
    requires WellFormed(d) && d.kind == MacroKind && d.isPressed
    requires j < |samples| && RisingEdges(d.wasPressed, samples) == 0
    requires forall i :: 0 <= i < j ==> !TimedOut(samples[i].now, d.lastPressTime, d.sensitivity)
    requires TimedOut(samples[j].now, d.lastPressTime, d.sensitivity)
    ensures Run(d, samples).events == [ReleaseAll] && !Run(d, samples).action.isPressed
    decreases |samples|
  {
    var first := HandleMacro(d, samples[0].pressed, samples[0].now);
    if j == 0 {
      assert first.events == [ReleaseAll] && !first.action.isPressed;
      MacroIdleIsQuiet(first.action, samples[1..]);
    } else {
      assert first.events == [] && first.action.isPressed;
      forall i | 0 <= i < j - 1
        ensures !TimedOut(samples[1..][i].now, first.action.lastPressTime, d.sensitivity)
      {
        assert samples[1..][i] == samples[i + 1];
      }
      MacroExpiryLog(first.action, samples[1..], j - 1);
    }
  }

  /** An active MACRO action with no new rising edge emits nothing before
      tick `j`, the first tick at or after its timeout, emits one `ReleaseAll`
      on tick `j`, and emits nothing after it. */
  lemma MacroExpiresOnce(d: KeyAction, samples: seq<Sample>, j: nat)
    requires WellFormed(d) && d.kind == MacroKind && d.isPressed
    requires j < |samples| && RisingEdges(d.wasPressed, samples) == 0
    requires forall i :: 0 <= i < j ==> !TimedOut(samples[i].now, d.lastPressTime, d.sensitivity)
    requires TimedOut(samples[j].now, d.lastPressTime, d.sensitivity)
    ensures Run(d, samples).events == [ReleaseAll] && !Run(d, samples).action.isPressed
    ensures Run(d, samples[..j]).events == []
    ensures Run(d, samples[..j + 1]).events == [ReleaseAll]
  {
    MacroExpiryLog(d, samples, j);
    var upTo := samples[..j + 1];
    assert Run(d, upTo).events == [ReleaseAll] by {
      RisingEdgesPrefix(d.wasPressed, samples, j + 1);
      assert forall i :: 0 <= i <= j ==> upTo[i] == samples[i];
      MacroExpiryLog(d, upTo, j);
    }
    var before := samples[..j];
    assert Run(d, before).events == [] by {
      RisingEdgesPrefix(d.wasPressed, samples, j);
      assert forall i :: 0 <= i < j ==> before[i] == samples[i];
      MacroQuietUntilTimeout(d, before);
    }
  }

  /** The log of one MACRO pulse over the whole run. */
  lemma MacroPulseLog(a: KeyAction, samples: seq<Sample>, j: nat)
    requires WellFormed(a) && a.kind == MacroKind && !a.wasPressed
    requires j < |samples| && samples[0].pressed && RisingEdges(true, samples[1..]) == 0
    requires forall i :: 0 <= i < j ==> !TimedOut(samples[i].now, samples[0].now, a.sensitivity)
    requires TimedOut(samples[j].now, samples[0].now, a.sensitivity)
    ensures Run(a, samples).events == PressAll(a.keys) + [ReleaseAll]
    ensures !Run(a, samples).action.isPressed
  {
    var first := HandleMacro(a, true, samples[0].now);
    if j == 0 {
      var evs := first.events;
      var n := |a.keys|;
      assert !first.action.isPressed && ReleaseAll in evs;
      assert |evs| == n + 1 && evs[n] == ReleaseAll;
      assert evs == evs[..n] + [evs[n]];
      MacroIdleIsQuiet(first.action, samples[1..]);
    } else {
      assert !TimedOut(samples[0].now, samples[0].now, a.sensitivity);
      assert first.events == PressAll(a.keys);
      forall i | 0 <= i < j - 1
        ensures !TimedOut(samples[1..][i].now, first.action.lastPressTime, a.sensitivity)
      {
        assert samples[1..][i] == samples[i + 1];
      }
      MacroExpiryLog(first.action, samples[1..], j - 1);
    }
  }

  /** While a MACRO pulse has not timed out, the log holds its press only. */
  lemma MacroPulseHeld(a: KeyAction, samples: seq<Sample>, j: nat)
    requires WellFormed(a) && a.kind == MacroKind && !a.wasPressed
    requires 0 < j <= |samples| && samples[0].pressed && RisingEdges(true, samples[1..]) == 0
    requires forall i :: 0 <= i < j ==> !TimedOut(samples[i].now, samples[0].now, a.sensitivity)
    ensures Run(a, samples[..j]).events == PressAll(a.keys)
  {
    var first := HandleMacro(a, true, samples[0].now);
    assert first.events == PressAll(a.keys);
    var held := samples[1..][..j - 1];
    assert samples[..j][0] == samples[0] && samples[..j][1..] == held;
    RisingEdgesPrefix(true, samples[1..], j - 1);
    forall i | 0 <= i < |held|
      ensures !TimedOut(held[i].now, first.action.lastPressTime, a.sensitivity)
    {
      assert held[i] == samples[i + 1];
    }
    MacroQuietUntilTimeout(first.action, held);
  }

  /** MACRO on one pulse of any length: every key pressed in key order on the
      rising edge, then one bulk release on tick `j`, the first tick at or
      after the timeout (the first tick itself when the sensitivity is 0), and
      nothing else. */
  lemma MacroSinglePulse(a: KeyAction, samples: seq<Sample>, j: nat)
    requires WellFormed(a) && a.kind == MacroKind && !a.wasPressed
    requires j < |samples| && samples[0].pressed && RisingEdges(true, samples[1..]) == 0
    requires forall i :: 0 <= i < j ==> !TimedOut(samples[i].now, samples[0].now, a.sensitivity)
    requires TimedOut(samples[j].now, samples[0].now, a.sensitivity)
    ensures Run(a, samples).events == PressAll(a.keys) + [ReleaseAll]
    ensures !Run(a, samples).action.isPressed
    ensures 0 < j ==> Run(a, samples[..j]).events == PressAll(a.keys)
    ensures Run(a, samples[..j + 1]).events == PressAll(a.keys) + [ReleaseAll]
  {
    assert Run(a, samples).events == PressAll(a.keys) + [ReleaseAll] && !Run(a, samples).action.isPressed by {
      MacroPulseLog(a, samples, j);
    }
    var upTo := samples[..j + 1];
    assert Run(a, upTo).events == PressAll(a.keys) + [ReleaseAll] by {
      RisingEdgesPrefix(true, samples[1..], j);
      assert upTo[1..] == samples[1..][..j];
      assert forall i :: 0 <= i <= j ==> upTo[i] == samples[i];
      MacroPulseLog(a, upTo, j);
    }
    if 0 < j {
      assert Run(a, samples[..j]).events == PressAll(a.keys) by {
        MacroPulseHeld(a, samples, j);
      }
    }
  }

  /** A PRINT button that stays asserted after its edge prints nothing more. */
  lemma {:induction false} PrintHeldIsQuiet(d: KeyAction, samples: seq<Sample>)
    requires WellFormed(d) && d.kind == PrintKind && d.wasPressed
    requires forall i :: 0 <= i < |samples| ==> samples[i].pressed
    ensures Run(d, samples).events == [] && Run(d, samples).action.isPressed == d.isPressed
    decreases |samples|
  {
    if samples != [] {
      var first := HandlePrint(d, true, samples[0].now);
      assert first.events == [] && first.action.wasPressed;
      PrintHeldIsQuiet(first.action, samples[1..]);
    }
  }

  /** PRINT with its button pressed and held for any number of ticks prints its
      stored string exactly once, and stays marked active. */
  lemma PrintPressAndHold(a: KeyAction, samples: seq<Sample>)
    requires WellFormed(a) && a.kind == PrintKind && !a.wasPressed
    requires |samples| > 0 && forall i :: 0 <= i < |samples| ==> samples[i].pressed
    ensures var r := Run(a, samples);
            r.events == [Print(CStr(a.printStr))] && r.action.isPressed
  {
    var first := HandlePrint(a, true, samples[0].now);
    assert first.events == [Print(CStr(a.printStr))];
    PrintHeldIsQuiet(first.action, samples[1..]);
    assert first.events + [] == first.events;
  }

  /** An active PRESS key stays down, and nothing is emitted, on every tick
      before its timeout, whatever its button does. */
  lemma {:induction false} PressQuietUntilTimeout(d: KeyAction, samples: seq<Sample>)
    requires WellFormed(d) && d.kind == PressKind && d.isPressed
    requires forall i :: 0 <= i < |samples| ==> !TimedOut(samples[i].now, d.lastPressTime, d.sensitivity)
    ensures Run(d, samples) == Outcome(d, [])
    decreases |samples|
  {
    if samples != [] {
      var first := HandlePress(d, samples[0].pressed, samples[0].now);
      assert first == Outcome(d, []);
      PressQuietUntilTimeout(d, samples[1..]);
    }
  }
}

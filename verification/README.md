# AltController in Dafny

A model of `AltController`, the firmware component that turns buttons on a
microcontroller's input pins into USB keyboard events. The controller keeps a
fixed-capacity registry of key actions, one per registration call, and on every
`update()` it visits the actions in registration order. For each action it reads
the action's pin (active-low, pulled up) and runs the handler for the action's
variant:

- **PRESS** presses the key whenever the button is down and the key is not,
  and releases it once `sensitivity` ms have passed, whether or not the button
  is still down.
- **RELEASE** presses the key on a rising edge of the button and releases it
  after `sensitivity` ms.
- **MACRO** presses all its keys in order on a rising edge, then releases
  everything at once after `sensitivity` ms.
- **PRINT** types its stored string once per rising edge.

The Arduino keyboard calls become an event log: `Press(k)`, `Release(k)`,
`ReleaseAll` and `Print(s)`. The pin levels of a tick are a function
`int -> bool`, where `true` is HIGH, and the clock reading is a parameter.
Everything is a pure function over immutable datatypes.

Files, one module each:

- `types.dfy` (`Types`): key bytes, the 32-bit millisecond clock, and the
  unsigned elapsed-time and sensitivity comparison.
- `keyboard.dfy` (`Keyboard`): the event type and counts over event logs.
- `cstring.dfy` (`CString`): `strncpy` and reading a NUL-terminated string back.
- `actions.dfy` (`Actions`): the `KeyAction` record, the capacity constants
  `MAX_MACRO_KEYS = 5` and `MAX_PRINT_LENGTH = 100`, and the print buffer.
- `handlers.dfy` (`Handlers`): the four per-variant handlers and the dispatch
  on the variant.
- `controller.dfy` (`Controller`): `MAX_ACTIONS = 20`, the default
  sensitivities, the four `add*` operations, and `update()`. `update()` appears
  twice: as the function `Tick` and as the loop `Update`.
- `traces.dfy` (`Traces`): one action run over many ticks, the whole
  controller run over many ticks, and sequences of registration calls.
- `scenarios.dfy` (`Scenarios`): the handlers' quirks and short press/release
  scenarios, each stated for all inputs that fit it.

Arithmetic follows the source's types:

- `currentTime - lastPressTime` is `unsigned long` subtraction, so it is taken
  modulo 2^32 (`Elapsed`).
- The `int` sensitivity is converted to `unsigned long` before the comparison
  (`Threshold`). A negative sensitivity therefore becomes a very long timeout,
  not an immediate one.

The code keeps three behaviours that a reader might not expect. The model
proves the per-tick rules behind each one. The timelines below follow from
those rules; they are not stated as lemmas of their own:

- A held PRESS button does not produce one pulse every `sensitivity` ms. The
  key is released on the first tick at or after the timeout, and pressed again
  only on the following tick (`PressRetriggersWhileHeld`,
  `PressQuietUntilTimeout`). So the pulse period is `sensitivity` rounded up to
  a whole tick, plus one tick. With 10 ms ticks and a 50 ms sensitivity, the
  key goes down at 0, up at 50, down at 60, up at 110 and down at 120. A hold
  of `d` ms can therefore give fewer than `floor(d / sensitivity)` pulses: 300
  ms gives 5 complete pulses, not 6. With sensitivity 0, the key is pressed
  and released in the same tick (`PressZeroSensitivity`).
- RELEASE and MACRO restart on every rising edge. An edge that comes while the
  key is still down presses again, with no release in between, and restarts the
  timer (`ReleaseRepressesWithoutRelease`, `MacroRepressesWithoutRelease`). So
  a release can come more than `sensitivity` ms after the first press.
- PRINT sets `isPressed` and never clears it (`PrintOncePerEdge`).

## Model

| member | source | states |
|---|---|---|
| `Types.Elapsed` | src/AltController.cpp:99 | the elapsed time is the plain difference when the clock has not wrapped since the press, and the difference plus 2^32 when it has |
| `Types.Threshold` | src/AltController.cpp:99 | a sensitivity in `0..2^32-1` is compared as itself; a negative one is compared as its value plus 2^32 |
| `CString.CStr` | src/AltController.cpp:144 | the printed string is the longest NUL-free prefix of the buffer, and it stops exactly at a NUL or at the end of the buffer |
| `CString.StrNCopy` | src/AltController.cpp:59 | `strncpy` fills exactly `n` slots: the source's C string, cut to `n` characters, then NUL padding |
| `Actions.PrintBuffer` | src/AltController.cpp:59-60 | the print buffer has 100 slots and its last slot is always the terminator |
| `Actions.PrintBufferReadsBack` | src/AltController.cpp:59-60 | the string later printed is the registered text cut to its first 99 characters |
| `Controller.New` | src/AltController.h:32 | a new controller has `actionCount == 0` and satisfies the registry invariant |
| `Controller.AddKeyPress` | src/AltController.cpp:7-18 | at capacity nothing changes; otherwise exactly one PRESS record with the given pin, sensitivity and single key (`keyCount == 1`) is appended at the old `actionCount`, earlier records are kept, the new record is inactive, and the invariant is preserved |
| `Controller.AddKeyRelease` | src/AltController.cpp:20-31 | the same as `AddKeyPress`, for a RELEASE record |
| `Controller.CopyKeys` | src/AltController.cpp:41-46 | the key-copy loop keeps the keys in input order while the array has room and drops every later key |
| `Controller.AddMacro` | src/AltController.cpp:33-49 | at capacity nothing changes; otherwise one MACRO record is appended holding the first `min(|keys|, 5)` keys in order, inactive, with the invariant preserved |
| `Controller.AddPrint` | src/AltController.cpp:51-63 | at capacity nothing changes; otherwise one PRINT record is appended with no keys, a terminated 100-slot buffer that reads back as the text cut to 99 characters, inactive, with the invariant preserved |
| `Controller.DefaultSensitivities` | src/AltController.h:41-44 | without an explicit sensitivity, PRESS gets 50 ms and RELEASE, MACRO and PRINT get 10 ms |
| `Handlers.HandlePress` | src/AltController.cpp:92-103 | emits only `Press`/`Release` of `keys[0]`, press before release; presses iff the button is down and the key was up; releases iff the key ends up after being or becoming down; still down implies the timeout has not elapsed; a release happens only at the timeout, and a timed-out key is released whatever the button does; a press restarts the timer at `now`, and nothing else touches it; with the button and the key both up the tick changes nothing; at most two events; configuration and `wasPressed` unchanged |
| `Handlers.HandleRelease` | src/AltController.cpp:105-120 | presses `keys[0]` iff there is a rising edge (even while the key is still down), and the timer restarts exactly then; releases only at the timeout; still down implies not timed out; with no edge, a key that is up stays up silently, a key that is down and not timed out stays down silently, and a timed-out key is released; at most two events; `wasPressed` becomes the current button state; configuration unchanged |
| `Handlers.HandleMacro` | src/AltController.cpp:122-139 | on a rising edge the log starts with one press per key in key order, and otherwise holds no press; the timeout emits one `ReleaseAll` as the last event; the log length is the number of keys pressed plus the number of releases; the timer restarts exactly on an edge; still down implies not timed out; with no edge, a chord that is up stays up silently, a chord that is down and not timed out stays down silently, and a timed-out chord gets exactly one `ReleaseAll` |
| `Handlers.HandlePrint` | src/AltController.cpp:141-149 | prints the buffer's C string once iff there is a rising edge, and emits nothing else; `isPressed` is set on an edge and never cleared; the timer is untouched; `wasPressed` tracks the button |
| `Handlers.Dispatch` | src/AltController.cpp:72-88 | the handler chosen by the variant keeps the configuration and the record's shape |
| `Controller.Sweep` | src/AltController.cpp:68-89 | slot `i` becomes exactly what its own handler makes of it, from its own pin's negated level; the tick's log is the handlers' logs concatenated in index order |
| `Controller.Tick` | src/AltController.cpp:65-90 | a tick keeps `actionCount`, the configuration of every action and the registry invariant; each slot is its own handler's result; the events come in index order |
| `Controller.Update` | src/AltController.cpp:65-90 | the loop over slots `0..actionCount-1` rewrites slot `i` only and appends that slot's events, and so computes the same registry and log as `Tick` |
| `Traces.Run` | src/AltController.cpp:65-90 | over any number of ticks an action's configuration and shape never change |
| `Traces.RunAppend` | src/AltController.cpp:65-90 | running an action through two stretches of ticks one after the other is running it through their concatenation: the final state is the same and the two logs concatenate |
| `Traces.TicksProject` | src/AltController.cpp:68-70 | after any sequence of ticks, action `i` is what its own handler makes of its own pin's samples, whatever the other actions are and even when they share its pin |
| `Traces.PressBalanced` | src/AltController.cpp:92-103 | over any run of a PRESS action, presses minus releases equals the change in `isPressed`, so at most one press is ever outstanding |
| `Traces.ReleaseOnePressPerEdge` | src/AltController.cpp:105-120 | over any run of a RELEASE action, the number of presses equals the number of rising edges of the button, and releases never outnumber presses (counting one that was already outstanding) |
| `Traces.MacroOneChordPerEdge` | src/AltController.cpp:122-139 | over any run of a MACRO action, the number of presses is the number of keys times the number of rising edges, and bulk releases never outnumber activations |
| `Traces.PrintOncePerEdge` | src/AltController.cpp:141-149 | over any run of a PRINT action, the number of prints equals the number of rising edges, no key event is ever emitted, and an active PRINT action stays active |
| `Traces.HeldButtonHasNoEdge` | src/AltController.cpp:107 | a button held down across consecutive ticks has no rising edge after the first |
| `Traces.HeldButtonIsSilent` | src/AltController.cpp:105-149 | a RELEASE, MACRO or PRINT button already held before a run presses no key and prints nothing for as long as it stays held |
| `Traces.RegisterPastCapacity` | src/AltController.cpp:8-10 | any sequence of registration calls leaves `min(count + calls, 20)` records and the earlier records untouched, and equals stopping after the first `20 - count` calls |
| `Traces.FullRegistryIgnoresCalls` | src/AltController.cpp:34-36 | on a full registry, any sequence of registration calls changes nothing |
| `Traces.RegisteredActionsStartInactive` | src/AltController.h:15-18 | after any registration sequence the registry invariant holds and every action has `isPressed == false`, `wasPressed == false` and `lastPressTime == 0` |
| `Scenarios.PressRetriggersWhileHeld` | src/AltController.cpp:93-102 | a PRESS key that times out while its button is held is released on that tick and pressed again, with a fresh timer, on the next held tick |
| `Scenarios.PressQuietUntilTimeout` | src/AltController.cpp:99-102 | a PRESS key that is down stays down and emits nothing on every tick before its timeout, whatever the button does |
| `Scenarios.PressZeroSensitivity` | src/AltController.cpp:92-103 | with sensitivity 0, a PRESS action presses and releases its key in the same tick |
| `Scenarios.ReleaseRepressesWithoutRelease` | src/AltController.cpp:107-111 | a RELEASE key still down when a new edge arrives is pressed again with no release in between, and its timer restarts |
| `Scenarios.MacroRepressesWithoutRelease` | src/AltController.cpp:124-130 | a MACRO chord still down when a new edge arrives is pressed again with no bulk release in between, and its timer restarts |
| `Scenarios.ReleaseQuietUntilTimeout` | src/AltController.cpp:105-120 | a RELEASE key that is down stays down, keeps its timer and emits nothing on every tick before its timeout, as long as no new rising edge comes |
| `Scenarios.ReleaseIdleIsQuiet` | src/AltController.cpp:105-120 | a RELEASE key that is up stays up and emits nothing while no rising edge comes |
| `Scenarios.ReleaseExpiresOnce` | src/AltController.cpp:113-117 | with no new rising edge, a RELEASE key that is down is released exactly once: the ticks before the first tick at or after its timeout emit nothing, that tick emits the release, and nothing follows |
| `Scenarios.ReleaseSinglePulse` | src/AltController.cpp:105-120 | one button pulse of any length on a RELEASE action, with any later ticks that bring no new edge and any sensitivity, gives exactly one press and one release of its key: the press on the first tick, the release on the first tick at or after the timeout (the same tick when the sensitivity is 0), and nothing else |
| `Scenarios.MacroQuietUntilTimeout` | src/AltController.cpp:122-139 | a MACRO chord that is down stays down, keeps its timer and emits nothing on every tick before its timeout, as long as no new rising edge comes |
| `Scenarios.MacroIdleIsQuiet` | src/AltController.cpp:122-139 | a MACRO chord that is up stays up and emits nothing while no rising edge comes |
| `Scenarios.MacroExpiresOnce` | src/AltController.cpp:132-136 | with no new rising edge, a MACRO chord that is down gets exactly one `ReleaseAll`: the ticks before the first tick at or after its timeout emit nothing, that tick emits the `ReleaseAll`, and nothing follows |
| `Scenarios.MacroSinglePulse` | src/AltController.cpp:122-139 | one button pulse of any length on a MACRO action, with any later ticks that bring no new edge and any sensitivity, gives its keys' presses in key order on the first tick and then exactly one `ReleaseAll`, on the first tick at or after the timeout (the same tick when the sensitivity is 0), and nothing else |
| `Scenarios.PrintHeldIsQuiet` | src/AltController.cpp:143-148 | a PRINT button that stays down after its edge prints nothing more |
| `Scenarios.PrintPressAndHold` | src/AltController.cpp:141-149 | pressing and holding a PRINT button for any number of ticks prints its stored string exactly once |

## Left out

- `Keyboard.begin()` in the constructor and `pinMode(pin, INPUT_PULLUP)` in every `add*` are hardware set-up with no state in the model.
- `digitalRead` becomes the pin-level function given to a tick. The source reads the pins one action at a time during the loop, while the model reads all pins at one instant, so a level that changes in the middle of a tick is not modelled.
- `millis()` becomes the clock reading given to a tick.
- The keyboard library's own pressed-key state is not modelled, and neither is how `Keyboard.print` turns characters into keystrokes. In particular, a MACRO's `ReleaseAll` also releases keys held by other actions; the model shows the event but not its effect on the host.
- `processedFlag` is never read or written, so it is not modelled.
- `addKeyPress` and `addKeyRelease` take a `char` key and store it in a `uint8_t` slot. The model takes the key as a byte, so the signed-`char` conversion is not modelled.
- Fields the source leaves uninitialised are not modelled: `keys[1..4]` of a PRESS or RELEASE action, and the print buffer of a non-PRINT action. No handler reads them. The model stores `[key]` for the key array and an all-NUL buffer for the print buffer.
- CString.StrNCopy: a character of the model stands for one byte (`char`) of the source's C string. Text whose characters take several bytes in UTF-8 is cut after 99 characters here, but after 99 bytes in the source, which can be fewer characters or split a character.
- Actions.PrintBufferReadsBack: the same byte-versus-character caveat; the round trip holds exactly for text whose characters are single bytes.
- The text passed to `addPrint` is a character sequence, and its C string is everything before its first NUL. How the pointer is dereferenced is not modelled.
- The width of the source's `int` (16 or 32 bits, depending on the board) is not modelled. Pins and sensitivities are unbounded integers. A sensitivity enters the timing only through its conversion to `unsigned long`, which is modelled.

/** The keyboard collaborator, seen from the controller: every call the
    controller makes on it becomes one event appended to a log. */
module Keyboard {
  import opened Types

  datatype Event =
    | Press(key: Byte)        // Keyboard.press(key)
    | Release(key: Byte)      // Keyboard.release(key)
    | ReleaseAll              // Keyboard.releaseAll()
    | Print(text: seq<char>)  // Keyboard.print(text)

  /** The presses, one per key, in key order. */
  function PressAll(keys: seq<Byte>): (evs: seq<Event>)
    ensures |evs| == |keys|
    ensures forall i :: 0 <= i < |keys| ==> evs[i] == Press(keys[i])
  {
    seq(|keys|, i requires 0 <= i < |keys| => Press(keys[i]))
  }

  /** Number of key-press events in a log. */
  function Presses(evs: seq<Event>): nat
  {
    if evs == [] then 0 else (if evs[0].Press? then 1 else 0) + Presses(evs[1..])
  }

  /** Number of single-key or bulk release events in a log. */
  function Releases(evs: seq<Event>): nat
  {
    if evs == [] then 0 else (if evs[0].Release? || evs[0].ReleaseAll? then 1 else 0) + Releases(evs[1..])
  }

  /** Number of text-print events in a log. */
  function Prints(evs: seq<Event>): nat
  {
    if evs == [] then 0 else (if evs[0].Print? then 1 else 0) + Prints(evs[1..])
  }

  /** The counts split over a concatenation of logs. */
  lemma {:induction false} CountsAppend(a: seq<Event>, b: seq<Event>)
    ensures Presses(a + b) == Presses(a) + Presses(b)
    ensures Releases(a + b) == Releases(a) + Releases(b)
    ensures Prints(a + b) == Prints(a) + Prints(b)
  {
    if a != [] {
      assert (a + b)[1..] == a[1..] + b;
      CountsAppend(a[1..], b);
    } else {
      assert a + b == b;
    }
  }

  lemma {:induction false} PressAllCounts(keys: seq<Byte>)
    ensures Presses(PressAll(keys)) == |keys|
    ensures Releases(PressAll(keys)) == 0
    ensures Prints(PressAll(keys)) == 0
  {
    if keys != [] {
      assert PressAll(keys)[1..] == PressAll(keys[1..]);
      PressAllCounts(keys[1..]);
    }
  }
}

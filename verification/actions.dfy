/** One registered action: its configuration (pin, type, sensitivity, keys,
    print buffer) and its per-action timing and edge state. */
module Actions {
  import opened Types
  import opened CString

  /** Capacity of a macro's key array. */
  const MAX_MACRO_KEYS: nat := 5
  /** Size of a PRINT action's character buffer, terminator included. */
  const MAX_PRINT_LENGTH: nat := 100

  /** The four action variants; exactly one per action, fixed at registration. */
  datatype Kind = PressKind | ReleaseKind | MacroKind | PrintKind

  /** `keys` holds the first `keyCount` entries of the key array, so
      `keyCount` is `|keys|`. `printStr` is the whole character buffer. */
  datatype KeyAction = KeyAction(
    pin: int,
    kind: Kind,
    sensitivity: int,
    keys: seq<Byte>,
    printStr: seq<char>,
    isPressed: bool,
    wasPressed: bool,
    lastPressTime: Millis)
  {
    function KeyCount(): nat { |keys| }
  }

  /** The buffer a non-PRINT action carries: never written, never read. */
  function BlankBuffer(): (b: seq<char>)
    ensures |b| == MAX_PRINT_LENGTH && CStr(b) == []
  {
    seq(MAX_PRINT_LENGTH, _ => NUL)
  }

  /** What `addPrint` leaves in the buffer: `strncpy` into the first
      `MAX_PRINT_LENGTH - 1` slots, then a terminator in the last one. */
  function PrintBuffer(text: seq<char>): (b: seq<char>)
    ensures |b| == MAX_PRINT_LENGTH
    ensures b[MAX_PRINT_LENGTH - 1] == NUL
  {
    StrNCopy(text, MAX_PRINT_LENGTH - 1) + [NUL]
  }

  /** The string later printed is the registered C string cut to
      `MAX_PRINT_LENGTH - 1` characters. */
  lemma {:induction false} PrintBufferReadsBack(text: seq<char>)
    ensures CStr(PrintBuffer(text)) == CStr(text)[..Min(|CStr(text)|, MAX_PRINT_LENGTH - 1)]
  {
    var n := MAX_PRINT_LENGTH - 1;
    var m := Min(|CStr(text)|, n);
    var copied := StrNCopy(text, n);
    var b := PrintBuffer(text);
    var p := CStr(text)[..m];
    assert b == p + b[m..] by {
      assert b[..m] == copied[..m];
    }
    assert NUL !in p by {
      forall i | 0 <= i < |p| ensures p[i] != NUL {
        assert p[i] == CStr(text)[i];
      }
    }
    forall i | 0 <= i < |b[m..]| ensures b[m..][i] == NUL {
      if m + i < n {
        assert b[m + i] == copied[m + i];
      }
    }
    CStrOfPadded(p, b[m..]);
  }

  /** Shape every registered action keeps: the key array is never overrun,
      single-key variants hold exactly one key, PRINT holds no key, and the
      buffer's last slot is a terminator. */
  predicate WellFormed(a: KeyAction)
  {
    && |a.keys| <= MAX_MACRO_KEYS
    && (a.kind == PressKind || a.kind == ReleaseKind ==> |a.keys| == 1)
    && (a.kind == PrintKind ==> |a.keys| == 0)
    && |a.printStr| == MAX_PRINT_LENGTH
    && a.printStr[MAX_PRINT_LENGTH - 1] == NUL
  }

  /** The configuration fields, which no tick may change. */
  predicate SameConfig(a: KeyAction, b: KeyAction)
  {
    && a.pin == b.pin
    && a.kind == b.kind
    && a.sensitivity == b.sensitivity
    && a.keys == b.keys
    && a.printStr == b.printStr
  }

  /** A freshly registered record: the field initialisers of the struct give
      `isPressed == false`, `wasPressed == false`, `lastPressTime == 0`. */
  function Fresh(pin: int, kind: Kind, sensitivity: int, keys: seq<Byte>, printStr: seq<char>): (a: KeyAction)
    ensures a.pin == pin && a.kind == kind && a.sensitivity == sensitivity
    ensures a.keys == keys && a.printStr == printStr
    ensures !a.isPressed && !a.wasPressed && a.lastPressTime == 0
  {
    KeyAction(pin, kind, sensitivity, keys, printStr, false, false, 0)
  }
}

/** Machine-level value types used by the controller: key bytes, the 32-bit
    millisecond clock, and the unsigned comparisons the tick handlers make. */
module Types {

  /** A key code as stored in the action's key array (`uint8_t`). */
  type Byte = x: int | 0 <= x < 256

  /** Number of distinct values of an `unsigned long` millisecond counter. */
  const TIME_MODULUS: int := 0x1_0000_0000

  /** A reading of the millisecond clock: a 32-bit `unsigned long`. */
  type Millis = t: int | 0 <= t < TIME_MODULUS

  /** `currentTime - lastPressTime` computed on `unsigned long`, i.e. modulo 2^32.
      When the clock has not wrapped since `since`, this is plain subtraction. */
  function Elapsed(now: Millis, since: Millis): (d: Millis)
    ensures since <= now ==> d == now - since
    ensures now < since ==> d == now - since + TIME_MODULUS
  {
    (now - since) % TIME_MODULUS
  }

  /** The value an `int` sensitivity takes when it is compared with an
      `unsigned long` elapsed time: the usual arithmetic conversion to unsigned. */
  function Threshold(sensitivity: int): (t: Millis)
    ensures 0 <= sensitivity < TIME_MODULUS ==> t == sensitivity
    ensures -TIME_MODULUS <= sensitivity < 0 ==> t == sensitivity + TIME_MODULUS
  {
    sensitivity % TIME_MODULUS
  }

  /** The auto-release test shared by the PRESS, RELEASE and MACRO handlers:
      `currentTime - lastPressTime >= sensitivity` in unsigned arithmetic. */
  predicate TimedOut(now: Millis, since: Millis, sensitivity: int)
  {
    Elapsed(now, since) >= Threshold(sensitivity)
  }

  function Min(a: int, b: int): int
  {
    if a <= b then a else b
  }
}

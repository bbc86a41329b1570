/**
 The order in which an ECMAScript ordinary object enumerates its own string keys
 (OrdinaryOwnPropertyKeys, section 10.1.11.1 of ECMA-262): every key that is an
 array index comes first, in ascending numeric order, then every other string key
 in the order it was created. The ledger of the session is such an object, and the
 resolver scans it in exactly this order, so the order decides ties.
 */
module PropertyKeys {

  /** The largest array index, 2^32 - 2. */
  const MaxArrayIndex: nat := 0xFFFF_FFFE

  predicate IsDigit(ch: char) {
    '0' <= ch <= '9'
  }

  function DigitValue(ch: char): (v: nat)
    requires IsDigit(ch)
    ensures v < 10
  {
    (ch as int) - ('0' as int)
  }

  predicate AllDigits(s: string) {
    forall i :: 0 <= i < |s| ==> IsDigit(s[i])
  }

  /** The value of a string of decimal digits, most significant digit first. */
  function DecimalValue(s: string): nat
    requires AllDigits(s)
    decreases |s|
  {
    if |s| == 0 then 0 else 10 * DecimalValue(s[..|s| - 1]) + DigitValue(s[|s| - 1])
  }

  /**
   A key is an array index when it is the canonical decimal spelling (no sign, no
   leading zero except for "0" itself) of an integer from 0 to 2^32 - 2.
   */
  predicate IsIndexKey(s: string) {
    && |s| > 0
    && AllDigits(s)
    && (s[0] != '0' || |s| == 1)
    && DecimalValue(s) <= MaxArrayIndex
  }

  function IndexValue(s: string): nat
    requires IsIndexKey(s)
  {
    DecimalValue(s)
  }

  /**
   Key `a` may be enumerated before key `b`: an array index must be preceded only
   by array indices that are not larger.
   */
  predicate MayPrecede(a: string, b: string) {
    IsIndexKey(b) ==> IsIndexKey(a) && IndexValue(a) <= IndexValue(b)
  }
}

/** Character classes used by the two regular expressions of the sweep script,
    and the greedy run of one class that a `\s*`, `\s+`, `\d+` or `[0-9.]+`
    consumes. */
module Chars {

  datatype CharClass = Space | Digit | DigitOrDot

  /** Python's `\s` on a `str` pattern: exactly the characters for which
      `str.isspace()` holds (ASCII controls 0x09-0x0D and 0x1C-0x1F, the space,
      and the Unicode white-space characters). */
  predicate IsSpace(c: char) {
    var n := c as int;
    || 0x09 <= n <= 0x0D
    || 0x1C <= n <= 0x20
    || n == 0x85
    || n == 0xA0
    || n == 0x1680
    || 0x2000 <= n <= 0x200A
    || n == 0x2028
    || n == 0x2029
    || n == 0x202F
    || n == 0x205F
    || n == 0x3000
  }

  /** An ASCII decimal digit. */
  predicate IsDigit(c: char) {
    '0' <= c <= '9'
  }

  predicate InClass(c: char, k: CharClass) {
    match k
    case Space => IsSpace(c)
    case Digit => IsDigit(c)
    case DigitOrDot => IsDigit(c) || c == '.'
  }

  predicate AllIn(s: string, k: CharClass) {
    forall p :: 0 <= p < |s| ==> InClass(s[p], k)
  }

  /** Where a greedy run of `k`-characters that starts at `i` ends: the first
      position from `i` on whose character is not in the class. */
  function RunEnd(t: string, i: nat, k: CharClass): (e: nat)
    requires i <= |t|
    ensures i <= e <= |t|
    ensures e == |t| || !InClass(t[e], k)
    decreases |t| - i
  {
    if i < |t| && InClass(t[i], k) then RunEnd(t, i + 1, k) else i
  }

  /** Everything a greedy run passes over is in its class. */
  lemma {:induction false} RunEndSpan(t: string, i: nat, k: CharClass)
    requires i <= |t|
    ensures forall p :: i <= p < RunEnd(t, i, k) ==> InClass(t[p], k)
    decreases |t| - i
  {
    if i < |t| && InClass(t[i], k) {
      RunEndSpan(t, i + 1, k);
    }
  }

  /** A greedy run is determined by its two ends: any `e` that is preceded by
      `k`-characters only and followed by a non-`k` character (or the end of
      the text) is the end of the run. */
  lemma RunEndUnique(t: string, i: nat, k: CharClass, e: nat)
    requires i <= e <= |t|
    requires forall p :: i <= p < e ==> InClass(t[p], k)
    requires e == |t| || !InClass(t[e], k)
    ensures RunEnd(t, i, k) == e
  {
    RunEndSpan(t, i, k);
  }
}

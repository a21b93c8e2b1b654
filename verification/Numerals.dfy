/** Decimal numerals and what they are read as, from the left. */
module Numerals {
  predicate IsDecimalDigit(c: char) {
    c in "0123456789"
  }

  predicate IsNumeral(s: string) {
    s != [] && forall i | 0 <= i < |s| :: IsDecimalDigit(s[i])
  }

  /** Without a leading zero, except for zero itself. */
  predicate IsShortest(s: string) {
    IsNumeral(s) && (|s| > 1 ==> s[0] != '0')
  }

  /** Ten times the value so far, plus the digit. */
  function ReadOn(value: int, s: string): int
    decreases |s|
  {
    if s == [] then value else ReadOn(10 * value + (s[0] as int - '0' as int), s[1..])
  }

  function Reading(s: string): int {
    ReadOn(0, s)
  }

  lemma {:induction false} ReadLast(value: int, s: string)
    requires s != []
    ensures ReadOn(value, s) == 10 * ReadOn(value, s[..|s| - 1]) + (s[|s| - 1] as int - '0' as int)
    decreases |s|
  {
    if |s| > 1 {
      var next := 10 * value + (s[0] as int - '0' as int);
      ReadLast(next, s[1..]);
      assert s[1..][..|s| - 2] == s[..|s| - 1][1..];
    }
  }

  lemma DigitRange(c: char)
    requires IsDecimalDigit(c)
    ensures 0 <= c as int - '0' as int < 10 && (c != '0' ==> c as int > '0' as int)
  {
  }

  /** What is read is never negative, and positive when the numeral does not start with a zero. */
  lemma {:induction false} ReadingSign(s: string)
    requires IsNumeral(s)
    ensures Reading(s) >= 0 && (s[0] != '0' ==> Reading(s) >= 1)
  {
    hide IsDecimalDigit;
    DigitRange(s[|s| - 1]);
    ReadLast(0, s);
    if |s| > 1 {
      ReadingSign(s[..|s| - 1]);
    }
  }
}

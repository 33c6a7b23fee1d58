/** Calendar-date strings of the form `YYYY-MM-DD`, as produced by an HTML date
    input, and the order `new Date(s)` puts them in.

    For a well-formed date-only string, `new Date(s)` is midnight UTC of that day,
    so comparing two such values compares (year, month, day) lexicographically.
    `DateKey` encodes that tuple as one integer with the same order. */
module Dates {

  predicate IsDigit(c: char) {
    '0' <= c <= '9'
  }

  function DigitValue(c: char): int {
    c as int - '0' as int
  }

  function Year(s: string): int
    requires |s| == 10
  {
    1000 * DigitValue(s[0]) + 100 * DigitValue(s[1]) + 10 * DigitValue(s[2]) + DigitValue(s[3])
  }

  function Month(s: string): int
    requires |s| == 10
  {
    10 * DigitValue(s[5]) + DigitValue(s[6])
  }

  function Day(s: string): int
    requires |s| == 10
  {
    10 * DigitValue(s[8]) + DigitValue(s[9])
  }

  predicate IsLeapYear(y: int) {
    y % 4 == 0 && (y % 100 != 0 || y % 400 == 0)
  }

  function DaysInMonth(y: int, m: int): int {
    if m == 2 then (if IsLeapYear(y) then 29 else 28)
    else if m == 4 || m == 6 || m == 9 || m == 11 then 30
    else 31
  }

  /** `s` is `YYYY-MM-DD` naming a real calendar day. */
  predicate WellFormedDate(s: string) {
    && |s| == 10
    && s[4] == '-' && s[7] == '-'
    && (forall i | 0 <= i < 10 && i != 4 && i != 7 :: IsDigit(s[i]))
    && 1 <= Month(s) <= 12
    && 1 <= Day(s) <= DaysInMonth(Year(s), Month(s))
  }

  /** The position of a date on the time line. Only well-formed dates are ever
      compared; the value for any other string is a placeholder. */
  function DateKey(s: string): int {
    if WellFormedDate(s) then Year(s) * 10000 + Month(s) * 100 + Day(s) else -1
  }

  /** A number written with a fixed-width least-significant part splits uniquely. */
  lemma SplitUnique(hi1: int, lo1: int, hi2: int, lo2: int, base: int)
    requires base > 0 && 0 <= lo1 < base && 0 <= lo2 < base
    requires hi1 * base + lo1 == hi2 * base + lo2
    ensures hi1 == hi2 && lo1 == lo2
  {
    if hi1 != hi2 {
      var lo, hi := if hi1 < hi2 then hi1 else hi2, if hi1 < hi2 then hi2 else hi1;
      MulAtLeast(hi - lo, base);
    }
  }

  lemma {:induction false} MulAtLeast(d: int, base: int)
    requires d >= 1 && base > 0
    ensures d * base >= base
  {
    if d > 1 {
      MulAtLeast(d - 1, base);
      assert d * base == (d - 1) * base + base;
    }
  }

  lemma DigitsUnique(a: char, b: char)
    requires IsDigit(a) && IsDigit(b) && DigitValue(a) == DigitValue(b)
    ensures a == b
  {
  }

  /** Well-formed dates that are equal as instants are equal as strings, so
      grouping by exact string and ordering by parsed date agree. */
  lemma DateKeyInjective(a: string, b: string)
    requires WellFormedDate(a) && WellFormedDate(b)
    requires DateKey(a) == DateKey(b)
    ensures a == b
  {
    forall i | 0 <= i < 10 && i != 4 && i != 7
      ensures 0 <= DigitValue(a[i]) < 10 && 0 <= DigitValue(b[i]) < 10
    {
      assert IsDigit(a[i]) && IsDigit(b[i]);
    }
    var ya, yb := Year(a), Year(b);
    var ra, rb := Month(a) * 100 + Day(a), Month(b) * 100 + Day(b);
    SplitUnique(ya, ra, yb, rb, 10000);
    SplitUnique(Month(a), Day(a), Month(b), Day(b), 100);
    SplitUnique(DigitValue(a[8]), DigitValue(a[9]), DigitValue(b[8]), DigitValue(b[9]), 10);
    SplitUnique(DigitValue(a[5]), DigitValue(a[6]), DigitValue(b[5]), DigitValue(b[6]), 10);
    SplitUnique(100 * DigitValue(a[0]) + 10 * DigitValue(a[1]) + DigitValue(a[2]), DigitValue(a[3]),
                100 * DigitValue(b[0]) + 10 * DigitValue(b[1]) + DigitValue(b[2]), DigitValue(b[3]), 10);
    SplitUnique(10 * DigitValue(a[0]) + DigitValue(a[1]), DigitValue(a[2]),
                10 * DigitValue(b[0]) + DigitValue(b[1]), DigitValue(b[2]), 10);
    SplitUnique(DigitValue(a[0]), DigitValue(a[1]), DigitValue(b[0]), DigitValue(b[1]), 10);
    forall i | 0 <= i < 10
      ensures a[i] == b[i]
    {
      if i != 4 && i != 7 {
        DigitsUnique(a[i], b[i]);
      }
    }
  }
}

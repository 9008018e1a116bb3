/** The `DateTime` columns `created_at` and `updated_at`: a naive UTC
    `datetime` as its fields, its `isoformat()` text, and the order
    `ORDER BY created_at` uses. */
module Timestamps {

  type Year = y: int | 1 <= y <= 9999 witness 1
  type Month = m: int | 1 <= m <= 12 witness 1
  type Day = d: int | 1 <= d <= 31 witness 1
  type Hour = h: int | 0 <= h < 24
  type Minute = m: int | 0 <= m < 60
  type Second = s: int | 0 <= s < 60
  type Microsecond = u: int | 0 <= u < 1000000

  datatype DateTime = DateTime(year: Year, month: Month, day: Day, hour: Hour,
                               minute: Minute, second: Second, microsecond: Microsecond)

  /** A position on the time line: fields in decreasing significance, each
      radix above its field's range, so that comparing ticks compares the
      field tuples lexicographically. */
  function Ticks(t: DateTime): int {
    ((((((t.year * 13 + t.month) * 32 + t.day) * 24 + t.hour) * 60 + t.minute) * 60 + t.second) * 1000000)
      + t.microsecond
  }

  /** `a <= b` as Python compares two naive datetimes. */
  predicate NotAfter(a: DateTime, b: DateTime) {
    Ticks(a) <= Ticks(b)
  }

  function Pow10(n: nat): (p: nat)
    ensures p >= 1
  {
    if n == 0 then 1 else 10 * Pow10(n - 1)
  }

  function DigitChar(d: int): char
    requires 0 <= d < 10
  {
    "0123456789"[d]
  }

  /** `n` in decimal, zero-padded to `width` digits (`%0<width>d`). */
  function Digits(n: nat, width: nat): (s: string)
    ensures |s| == width
    ensures forall i :: 0 <= i < |s| ==> '0' <= s[i] <= '9'
  {
    if width == 0 then "" else Digits(n / 10, width - 1) + [DigitChar(n % 10)]
  }

  /** The number a string of decimal digits denotes. */
  function DigitsValue(s: string): nat
    requires forall i :: 0 <= i < |s| ==> '0' <= s[i] <= '9'
  {
    if s == [] then 0 else 10 * DigitsValue(s[..|s| - 1]) + (s[|s| - 1] as int - '0' as int)
  }

  /** Padding loses nothing: a number below `10^width` is read back from its digits. */
  lemma {:induction false} DigitsRoundTrip(n: nat, width: nat)
    requires n < Pow10(width)
    ensures DigitsValue(Digits(n, width)) == n
  {
    if width > 0 {
      var s := Digits(n, width);
      var d := n % 10;
      assert s[|s| - 1] == DigitChar(d);
      assert DigitChar(d) as int - '0' as int == d;
      assert s[..|s| - 1] == Digits(n / 10, width - 1);
      assert n / 10 < Pow10(width - 1);
      DigitsRoundTrip(n / 10, width - 1);
      assert n == 10 * (n / 10) + d;
    }
  }

  /** `YYYY-MM-DD`. */
  function IsoDate(t: DateTime): string {
    Digits(t.year, 4) + "-" + Digits(t.month, 2) + "-" + Digits(t.day, 2)
  }

  /** `HH:MM:SS`. */
  function IsoClock(t: DateTime): string {
    Digits(t.hour, 2) + ":" + Digits(t.minute, 2) + ":" + Digits(t.second, 2)
  }

  /** `.ffffff`, present only when the microsecond is not zero. */
  function IsoFraction(t: DateTime): string {
    if t.microsecond == 0 then "" else "." + Digits(t.microsecond, 6)
  }

  /** `datetime.isoformat()` of a naive datetime. */
  function Isoformat(t: DateTime): string {
    IsoDate(t) + "T" + IsoClock(t) + IsoFraction(t)
  }

  /** The date is ten characters with each field at a fixed position. */
  lemma IsoDateLayout(t: DateTime)
    ensures |IsoDate(t)| == 10
    ensures IsoDate(t)[..4] == Digits(t.year, 4) && IsoDate(t)[5..7] == Digits(t.month, 2)
    ensures IsoDate(t)[8..] == Digits(t.day, 2)
  {
  }

  /** The clock is eight characters with each field at a fixed position. */
  lemma IsoClockLayout(t: DateTime)
    ensures |IsoClock(t)| == 8
    ensures IsoClock(t)[..2] == Digits(t.hour, 2) && IsoClock(t)[3..5] == Digits(t.minute, 2)
    ensures IsoClock(t)[6..] == Digits(t.second, 2)
  {
  }

  /** The text has 19 characters without a fractional part and 26 with one:
      the date, `T`, the clock, then the fraction. */
  lemma IsoformatLayout(t: DateTime)
    ensures |Isoformat(t)| == if t.microsecond == 0 then 19 else 26
    ensures Isoformat(t)[..10] == IsoDate(t) && Isoformat(t)[10] == 'T'
    ensures Isoformat(t)[11..19] == IsoClock(t) && Isoformat(t)[19..] == IsoFraction(t)
  {
    IsoDateLayout(t);
    IsoClockLayout(t);
  }

  lemma IsoDateInjective(a: DateTime, b: DateTime)
    requires IsoDate(a) == IsoDate(b)
    ensures a.year == b.year && a.month == b.month && a.day == b.day
  {
    IsoDateLayout(a);
    IsoDateLayout(b);
    assert Pow10(2) == 100 && Pow10(4) == 10000;
    DigitsRoundTrip(a.year, 4); DigitsRoundTrip(b.year, 4);
    DigitsRoundTrip(a.month, 2); DigitsRoundTrip(b.month, 2);
    DigitsRoundTrip(a.day, 2); DigitsRoundTrip(b.day, 2);
  }

  lemma IsoClockInjective(a: DateTime, b: DateTime)
    requires IsoClock(a) == IsoClock(b)
    ensures a.hour == b.hour && a.minute == b.minute && a.second == b.second
  {
    IsoClockLayout(a);
    IsoClockLayout(b);
    assert Pow10(2) == 100;
    DigitsRoundTrip(a.hour, 2); DigitsRoundTrip(b.hour, 2);
    DigitsRoundTrip(a.minute, 2); DigitsRoundTrip(b.minute, 2);
    DigitsRoundTrip(a.second, 2); DigitsRoundTrip(b.second, 2);
  }

  lemma IsoFractionInjective(a: DateTime, b: DateTime)
    requires IsoFraction(a) == IsoFraction(b)
    ensures a.microsecond == b.microsecond
  {
    if a.microsecond != 0 && b.microsecond != 0 {
      assert IsoFraction(a)[1..] == Digits(a.microsecond, 6);
      assert IsoFraction(b)[1..] == Digits(b.microsecond, 6);
      assert Pow10(6) == 1000000;
      DigitsRoundTrip(a.microsecond, 6);
      DigitsRoundTrip(b.microsecond, 6);
    }
  }

  /** Distinct instants are printed distinctly. */
  lemma IsoformatInjective(a: DateTime, b: DateTime)
    requires Isoformat(a) == Isoformat(b)
    ensures a == b
  {
    IsoformatLayout(a);
    IsoformatLayout(b);
    IsoDateInjective(a, b);
    IsoClockInjective(a, b);
    IsoFractionInjective(a, b);
  }
}

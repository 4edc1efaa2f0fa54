// The proleptic Gregorian calendar of .NET's DateTime and DateOnly, the two
// fixed formats the activity path reads and writes ("yyyy-MM-dd" and
// "yyyy-MM-ddTHH:mm:ss.fff", invariant culture), and whole-day differences.
module Calendar {
  import opened Common
  import Positional
  import opened Decimal

  predicate IsLeapYear(y: int) {
    y % 4 == 0 && (y % 100 != 0 || y % 400 == 0)
  }

  function DaysInMonth(y: int, m: int): (n: int)
    requires 1 <= m <= 12
    ensures 28 <= n <= 31
  {
    if m == 2 then (if IsLeapYear(y) then 29 else 28)
    else if m == 4 || m == 6 || m == 9 || m == 11 then 30
    else 31
  }

  predicate ValidDate(year: int, month: int, day: int) {
    1 <= year <= 9999 && 1 <= month <= 12 && 1 <= day <= DaysInMonth(year, month)
  }

  predicate ValidTime(hour: int, minute: int, second: int, millisecond: int) {
    0 <= hour < 24 && 0 <= minute < 60 && 0 <= second < 60 && 0 <= millisecond < 1000
  }

  datatype DateValue = DateValue(year: int, month: int, day: int)

  /** A `DateOnly`. */
  type Date = d: DateValue | ValidDate(d.year, d.month, d.day) witness DateValue(1, 1, 1)

  datatype DateTimeValue =
    DateTimeValue(year: int, month: int, day: int, hour: int, minute: int, second: int, millisecond: int)

  /** A `DateTime` to the millisecond, the precision of every format used here. */
  type DateTime = t: DateTimeValue
    | ValidDate(t.year, t.month, t.day) && ValidTime(t.hour, t.minute, t.second, t.millisecond)
    witness DateTimeValue(1, 1, 1, 0, 0, 0, 0)

  /** `DateOnly.FromDateTime(t)`. */
  function DateOf(t: DateTime): Date {
    DateValue(t.year, t.month, t.day)
  }

  // ---------------------------------------------------------------------
  // The two text formats

  /** `d.ToString("yyyy-MM-dd")`. */
  function FormatDate(d: Date): (s: string)
    ensures |s| == 10
  {
    Padded(d.year, 4) + "-" + Padded(d.month, 2) + "-" + Padded(d.day, 2)
  }

  /** `t.ToString("yyyy-MM-ddTHH:mm:ss.fff")` in the invariant culture. */
  function FormatTimestamp(t: DateTime): (s: string)
    ensures |s| == 23
  {
    FormatDate(DateOf(t)) + "T" + Padded(t.hour, 2) + ":" + Padded(t.minute, 2) + ":"
      + Padded(t.second, 2) + "." + Padded(t.millisecond, 3)
  }

  /** The value of the `len` characters of `s` from `from`, when they are all digits. */
  function Field(s: string, from: nat, len: nat): Option<nat>
    requires from + len <= |s|
  {
    var f := s[from..from + len];
    if AllDigits(f) then Some(DigitsValue(f)) else None
  }

  /** Reading a date in the "yyyy-MM-dd" layout: exactly ten characters,
      digit fields, and a day that exists. */
  function ParseDate(s: string): Option<Date> {
    if |s| != 10 || s[4] != '-' || s[7] != '-' then None
    else
      var y, m, d := Field(s, 0, 4), Field(s, 5, 2), Field(s, 8, 2);
      if y.None? || m.None? || d.None? || !ValidDate(y.value, m.value, d.value) then None
      else Some(DateValue(y.value, m.value, d.value))
  }

  /** `DateTime.ParseExact(s, "yyyy-MM-ddTHH:mm:ss.fff", InvariantCulture)`,
      with `None` where it throws. */
  function ParseTimestamp(s: string): Option<DateTime> {
    if |s| != 23 || s[10] != 'T' || s[13] != ':' || s[16] != ':' || s[19] != '.' then None
    else match ParseDate(s[..10])
      case None => None
      case Some(d) =>
        var h, mi, sec, ms := Field(s, 11, 2), Field(s, 14, 2), Field(s, 17, 2), Field(s, 20, 3);
        if h.None? || mi.None? || sec.None? || ms.None? || !ValidTime(h.value, mi.value, sec.value, ms.value) then None
        else Some(DateTimeValue(d.year, d.month, d.day, h.value, mi.value, sec.value, ms.value))
  }

  lemma FieldOfPadded(s: string, from: nat, n: nat, len: nat)
    requires from + len <= |s| && s[from..from + len] == Padded(n, len)
    requires n < Positional.Pow(10, len)
    ensures Field(s, from, len) == Some(n)
  {
    PaddedValue(n, len);
  }

  lemma FieldIsPadded(s: string, from: nat, len: nat)
    requires from + len <= |s| && Field(s, from, len).Some?
    ensures s[from..from + len] == Padded(Field(s, from, len).value, len)
  {
    ValuePadded(s[from..from + len]);
  }

  lemma PowersOfTen()
    ensures Positional.Pow(10, 2) == 100
    ensures Positional.Pow(10, 3) == 1000
    ensures Positional.Pow(10, 4) == 10000
  {
    assert Positional.Pow(10, 1) == 10;
  }

  /** A formatted date reads back as the same date. */
  lemma ParseFormatDate(d: Date)
    ensures ParseDate(FormatDate(d)) == Some(d)
  {
    var s := FormatDate(d);
    PowersOfTen();
    assert s[0..4] == Padded(d.year, 4);
    assert s[5..7] == Padded(d.month, 2);
    assert s[8..10] == Padded(d.day, 2);
    FieldOfPadded(s, 0, d.year, 4);
    FieldOfPadded(s, 5, d.month, 2);
    FieldOfPadded(s, 8, d.day, 2);
  }

  /** Every text the date reader accepts is the formatting of what it read:
      there is exactly one spelling per date. */
  lemma FormatParseDate(s: string)
    requires ParseDate(s).Some?
    ensures FormatDate(ParseDate(s).value) == s
  {
    FieldIsPadded(s, 0, 4);
    FieldIsPadded(s, 5, 2);
    FieldIsPadded(s, 8, 2);
    assert s == s[0..4] + s[4..5] + s[5..7] + s[7..8] + s[8..10];
  }

  /** A formatted timestamp reads back as the same instant. */
  lemma ParseFormatTimestamp(t: DateTime)
    ensures ParseTimestamp(FormatTimestamp(t)) == Some(t)
  {
    var s := FormatTimestamp(t);
    PowersOfTen();
    assert s[..10] == FormatDate(DateOf(t));
    ParseFormatDate(DateOf(t));
    assert s[11..13] == Padded(t.hour, 2);
    assert s[14..16] == Padded(t.minute, 2);
    assert s[17..19] == Padded(t.second, 2);
    assert s[20..23] == Padded(t.millisecond, 3);
    FieldOfPadded(s, 11, t.hour, 2);
    FieldOfPadded(s, 14, t.minute, 2);
    FieldOfPadded(s, 17, t.second, 2);
    FieldOfPadded(s, 20, t.millisecond, 3);
  }

  /** Every text the timestamp reader accepts is the formatting of what it read. */
  lemma FormatParseTimestamp(s: string)
    requires ParseTimestamp(s).Some?
    ensures FormatTimestamp(ParseTimestamp(s).value) == s
  {
    var t := ParseTimestamp(s).value;
    FormatParseDate(s[..10]);
    assert FormatDate(DateOf(t)) == s[..10];
    FieldIsPadded(s, 11, 2);
    FieldIsPadded(s, 14, 2);
    FieldIsPadded(s, 17, 2);
    FieldIsPadded(s, 20, 3);
    assert s[11..13] == Padded(t.hour, 2) && s[14..16] == Padded(t.minute, 2);
    assert s[17..19] == Padded(t.second, 2) && s[20..23] == Padded(t.millisecond, 3);
    assert s[10..11] == "T" && s[13..14] == ":" && s[16..17] == ":" && s[19..20] == ".";
    assert s == s[..10] + s[10..11] + s[11..13] + s[13..14] + s[14..16] + s[16..17]
      + s[17..19] + s[19..20] + s[20..23];
  }

  // ---------------------------------------------------------------------
  // Day numbers

  /** Days from 0001-01-01 to the first of January of `y`. */
  function DaysBeforeYear(y: int): int
    requires y >= 1
  {
    var p := y - 1;
    p * 365 + p / 4 - p / 100 + p / 400
  }

  /** Days from the first of January of `y` to the first of month `m`. */
  function DaysBeforeMonth(y: int, m: int): (n: int)
    requires 1 <= m <= 12
    ensures n >= 0
  {
    if m == 1 then 0 else DaysBeforeMonth(y, m - 1) + DaysInMonth(y, m - 1)
  }

  /** Days from 0001-01-01 to `d`. */
  function DayNumber(d: Date): int {
    DaysBeforeYear(d.year) + DaysBeforeMonth(d.year, d.month) + d.day - 1
  }

  const Epoch: Date := DateValue(1987, 1, 1)

  /** `(d.ToDateTime(TimeOnly.MinValue) - new DateTime(1987, 1, 1)).Days`:
      negative for dates before 1987. */
  function DaysSince1987(d: Date): int {
    DayNumber(d) - DayNumber(Epoch)
  }

  predicate Before(a: Date, b: Date) {
    a.year < b.year
    || (a.year == b.year && a.month < b.month)
    || (a.year == b.year && a.month == b.month && a.day < b.day)
  }

  lemma YearLength(y: int)
    requires y >= 1
    ensures DaysBeforeYear(y + 1) == DaysBeforeYear(y) + (if IsLeapYear(y) then 366 else 365)
  {
    var p := y - 1;
    assert (p + 1) / 4 == p / 4 + (if y % 4 == 0 then 1 else 0);
    assert (p + 1) / 100 == p / 100 + (if y % 100 == 0 then 1 else 0);
    assert (p + 1) / 400 == p / 400 + (if y % 400 == 0 then 1 else 0);
  }

  lemma MonthsFillYear(y: int)
    ensures DaysBeforeMonth(y, 12) + DaysInMonth(y, 12) == (if IsLeapYear(y) then 366 else 365)
  {
    var feb := DaysInMonth(y, 2);
    assert DaysBeforeMonth(y, 2) == 31;
    assert DaysBeforeMonth(y, 3) == 31 + feb;
    assert DaysBeforeMonth(y, 4) == 62 + feb;
    assert DaysBeforeMonth(y, 5) == 92 + feb;
    assert DaysBeforeMonth(y, 6) == 123 + feb;
    assert DaysBeforeMonth(y, 7) == 153 + feb;
    assert DaysBeforeMonth(y, 8) == 184 + feb;
    assert DaysBeforeMonth(y, 9) == 215 + feb;
    assert DaysBeforeMonth(y, 10) == 245 + feb;
    assert DaysBeforeMonth(y, 11) == 276 + feb;
    assert DaysBeforeMonth(y, 12) == 306 + feb;
  }

  lemma {:induction false} MonthsIncrease(y: int, m1: int, m2: int)
    requires 1 <= m1 < m2 <= 12
    ensures DaysBeforeMonth(y, m1) + DaysInMonth(y, m1) <= DaysBeforeMonth(y, m2)
  {
    if m1 < m2 - 1 {
      MonthsIncrease(y, m1, m2 - 1);
    }
  }

  /** A date lies before the first of January of the following year. */
  lemma DayNumberWithinYear(d: Date)
    ensures DaysBeforeYear(d.year) <= DayNumber(d) < DaysBeforeYear(d.year) + (if IsLeapYear(d.year) then 366 else 365)
  {
    if d.month < 12 {
      MonthsIncrease(d.year, d.month, 12);
    }
    MonthsFillYear(d.year);
  }

  lemma {:induction false} YearsIncrease(y1: int, y2: int)
    requires 1 <= y1 < y2
    ensures DaysBeforeYear(y1) + 365 <= DaysBeforeYear(y2)
    decreases y2 - y1
  {
    YearLength(y1);
    if y1 + 1 < y2 {
      YearsIncrease(y1 + 1, y2);
    }
  }

  /** Day numbers follow calendar order, so distinct dates have distinct numbers. */
  lemma DayNumberIncreases(a: Date, b: Date)
    requires Before(a, b)
    ensures DaysSince1987(a) < DaysSince1987(b)
  {
    DayNumberWithinYear(a);
    if a.year < b.year {
      YearLength(a.year);
      if a.year + 1 < b.year {
        YearsIncrease(a.year + 1, b.year);
      }
      DayNumberWithinYear(b);
    } else if a.month < b.month {
      MonthsIncrease(a.year, a.month, b.month);
    }
  }

  /** Every date from 0001-01-01 to 9999-12-31 is well within the range of a C# int
      counted from 1987. */
  lemma DaysSince1987Range(d: Date)
    ensures -3652059 < DaysSince1987(d) < 3652059
  {
    DayNumberWithinYear(d);
    YearLength(d.year);
    if d.year + 1 < 10000 {
      YearsIncrease(d.year + 1, 10000);
    }
    DayNumberWithinYear(Epoch);
  }

  /** Dates from the epoch on have non-negative day counts. */
  lemma DaysSince1987NonNegative(d: Date)
    requires !Before(d, Epoch)
    ensures DaysSince1987(d) >= 0
  {
    if d != Epoch {
      DayNumberIncreases(Epoch, d);
    }
  }

  /** The epoch is day 0 and the first of January 2024 is day 13514. */
  lemma DaysSince1987Examples()
    ensures DaysSince1987(Epoch) == 0
    ensures DaysSince1987(DateValue(2024, 1, 1)) == 13514
  {
  }
}

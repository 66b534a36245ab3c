/**
 * Calendar dates as Python's `datetime.date` has them (the proleptic
 * Gregorian calendar, years 1 to 9999), the day numbering behind
 * `toordinal()` and `weekday()`, the instant of a local midnight, and the
 * two formats the booking code reads and writes with `strptime`/`strftime`:
 * "%Y-%m-%d" and "%Y-%m-%d %H:%M".
 *
 * Instants are whole seconds counted from local midnight at the start of
 * 0001-01-01; time zones and daylight saving are not modelled.
 */
module Calendar {
  import opened Wrappers
  import opened Text

  const SecondsPerMinute := 60
  const MinutesPerDay := 1440
  const SecondsPerDay := 86400

  datatype Date = Date(year: int, month: int, day: int)

  predicate IsLeapYear(y: int) {
    y % 4 == 0 && (y % 100 != 0 || y % 400 == 0)
  }

  function DaysInMonth(y: int, m: int): (n: int)
    requires 1 <= m <= 12
    ensures 28 <= n <= 31
  {
    if m == 2 then (if IsLeapYear(y) then 29 else 28)
    else if m == 4 || m == 6 || m == 9 || m == 11 then 30
    else 31
  }

  /** The dates `datetime.date` accepts: MINYEAR 1 to MAXYEAR 9999. */
  predicate IsValidDate(d: Date) {
    1 <= d.year <= 9999 && 1 <= d.month <= 12 && 1 <= d.day <= DaysInMonth(d.year, d.month)
  }

  /** Python's comparison of dates, which compares (year, month, day) in that order. */
  predicate DateLess(a: Date, b: Date) {
    a.year < b.year
    || (a.year == b.year && a.month < b.month)
    || (a.year == b.year && a.month == b.month && a.day < b.day)
  }

  function DaysBeforeYear(y: int): int {
    var p := y - 1;
    p * 365 + p / 4 - p / 100 + p / 400
  }

  function DaysBeforeMonth(y: int, m: int): (n: int)
    requires 1 <= m <= 12
    ensures n >= 0
  {
    if m == 1 then 0 else DaysBeforeMonth(y, m - 1) + DaysInMonth(y, m - 1)
  }

  /** `date.toordinal()`: 0001-01-01 is day 1. */
  function Ordinal(d: Date): int
    requires IsValidDate(d)
  {
    DaysBeforeYear(d.year) + DaysBeforeMonth(d.year, d.month) + d.day
  }

  /** `date.weekday()`: Monday is 0 and Sunday is 6; 0001-01-01 was a Monday. */
  function Weekday(d: Date): (w: int)
    requires IsValidDate(d)
    ensures 0 <= w <= 6
  {
    (Ordinal(d) + 6) % 7
  }

  /** The instant of local midnight at the start of `d`. */
  function Midnight(d: Date): int
    requires IsValidDate(d)
  {
    (Ordinal(d) - 1) * SecondsPerDay
  }

  /** True when instant `t` falls on local date `d` (a `__date=` lookup). */
  predicate OnDate(t: int, d: Date)
    requires IsValidDate(d)
  {
    Midnight(d) <= t < Midnight(d) + SecondsPerDay
  }

  /** What `timezone.now()` tells the code: the local date and the second of that day. */
  datatype Clock = Clock(today: Date, secondOfDay: int)

  predicate ValidClock(c: Clock) {
    IsValidDate(c.today) && 0 <= c.secondOfDay < SecondsPerDay
  }

  /** The instant the clock shows. */
  function Now(c: Clock): int
    requires ValidClock(c)
  {
    Midnight(c.today) + c.secondOfDay
  }

  lemma DaysInYear(y: int)
    ensures DaysBeforeYear(y + 1) - DaysBeforeYear(y) == DaysBeforeMonth(y, 12) + 31
  {
    var p := y - 1;
    StepOver4(p);
    StepOver100(p);
    StepOver400(p);
    DivisibilityChain(y);
    assert DaysBeforeYear(y + 1) - DaysBeforeYear(y)
        == 365 + ((p + 1) / 4 - p / 4) - ((p + 1) / 100 - p / 100) + ((p + 1) / 400 - p / 400);
    DaysBeforeMonthTable(y);
  }

  lemma DivisibilityChain(y: int)
    ensures y % 400 == 0 ==> y % 100 == 0
    ensures y % 100 == 0 ==> y % 4 == 0
  {
    if y % 400 == 0 {
      assert y == 100 * (4 * (y / 400));
    }
    if y % 100 == 0 {
      assert y == 4 * (25 * (y / 100));
    }
  }

  /** Counting multiples of 4, 100 and 400: one more step passes one more exactly at a multiple. */
  lemma StepOver4(p: int)
    ensures (p + 1) / 4 - p / 4 == if (p + 1) % 4 == 0 then 1 else 0
  {
  }

  lemma StepOver100(p: int)
    ensures (p + 1) / 100 - p / 100 == if (p + 1) % 100 == 0 then 1 else 0
  {
  }

  lemma StepOver400(p: int)
    ensures (p + 1) / 400 - p / 400 == if (p + 1) % 400 == 0 then 1 else 0
  {
  }

  lemma DaysBeforeMonthTable(y: int)
    ensures DaysBeforeMonth(y, 12) == if IsLeapYear(y) then 335 else 334
  {
    var leap := if IsLeapYear(y) then 1 else 0;
    assert DaysBeforeMonth(y, 2) == 31;
    assert DaysBeforeMonth(y, 3) == 59 + leap;
    assert DaysBeforeMonth(y, 4) == 90 + leap;
    assert DaysBeforeMonth(y, 5) == 120 + leap;
    assert DaysBeforeMonth(y, 6) == 151 + leap;
    assert DaysBeforeMonth(y, 7) == 181 + leap;
    assert DaysBeforeMonth(y, 8) == 212 + leap;
    assert DaysBeforeMonth(y, 9) == 243 + leap;
    assert DaysBeforeMonth(y, 10) == 273 + leap;
    assert DaysBeforeMonth(y, 11) == 304 + leap;
  }

  lemma {:induction false} DaysBeforeMonthGrows(y: int, m: int, m': int)
    requires 1 <= m < m' <= 12
    ensures DaysBeforeMonth(y, m) + DaysInMonth(y, m) <= DaysBeforeMonth(y, m')
  {
    if m' > m + 1 {
      DaysBeforeMonthGrows(y, m, m' - 1);
    }
  }

  lemma {:induction false} DaysBeforeYearGrows(y: int, y': int)
    requires y < y'
    ensures DaysBeforeYear(y) + DaysBeforeMonth(y, 12) + 31 <= DaysBeforeYear(y')
    decreases y' - y
  {
    DaysInYear(y);
    if y' > y + 1 {
      DaysBeforeYearGrows(y + 1, y');
      DaysInYear(y + 1);
    }
  }

  /** Comparing dates field by field agrees with comparing their day numbers. */
  lemma DateLessIsOrdinalLess(a: Date, b: Date)
    requires IsValidDate(a) && IsValidDate(b)
    ensures DateLess(a, b) <==> Ordinal(a) < Ordinal(b)
    ensures a == b <==> Ordinal(a) == Ordinal(b)
  {
    forall x: Date, y: Date | IsValidDate(x) && IsValidDate(y) && DateLess(x, y)
      ensures Ordinal(x) < Ordinal(y)
    {
      if x.year < y.year {
        DaysBeforeYearGrows(x.year, y.year);
        if x.month < 12 {
          DaysBeforeMonthGrows(x.year, x.month, 12);
        }
      } else if x.month < y.month {
        DaysBeforeMonthGrows(x.year, x.month, y.month);
      }
    }
  }

  /** Two different dates are a whole day apart, so their local days never share an instant. */
  lemma OnOneDate(t: int, a: Date, b: Date)
    requires IsValidDate(a) && IsValidDate(b)
    requires OnDate(t, a) && OnDate(t, b)
    ensures a == b
  {
    DateLessIsOrdinalLess(a, b);
    DateLessIsOrdinalLess(b, a);
  }

  // ---- strptime / strftime ------------------------------------------------

  /** `%m` as strptime reads it: `1[0-2]|0[1-9]|[1-9]`. */
  predicate IsMonthToken(t: string) {
    || (|t| == 1 && '1' <= t[0] <= '9')
    || (|t| == 2 && t[0] == '0' && '1' <= t[1] <= '9')
    || (|t| == 2 && t[0] == '1' && '0' <= t[1] <= '2')
  }

  /** `%d` as strptime reads it: `3[01]|[12]\d|0[1-9]|[1-9]| [1-9]`. */
  predicate IsDayToken(t: string) {
    || (|t| == 1 && '1' <= t[0] <= '9')
    || (|t| == 2 && t[0] == ' ' && '1' <= t[1] <= '9')
    || (|t| == 2 && t[0] == '0' && '1' <= t[1] <= '9')
    || (|t| == 2 && (t[0] == '1' || t[0] == '2') && IsDigit(t[1]))
    || (|t| == 2 && t[0] == '3' && (t[1] == '0' || t[1] == '1'))
  }

  /** `%H` as strptime reads it: `2[0-3]|[0-1]\d|\d`. */
  predicate IsHourToken(t: string) {
    || (|t| == 1 && IsDigit(t[0]))
    || (|t| == 2 && (t[0] == '0' || t[0] == '1') && IsDigit(t[1]))
    || (|t| == 2 && t[0] == '2' && '0' <= t[1] <= '3')
  }

  /** `%M` as strptime reads it: `[0-5]\d|\d`. */
  predicate IsMinuteToken(t: string) {
    || (|t| == 1 && IsDigit(t[0]))
    || (|t| == 2 && '0' <= t[0] <= '5' && IsDigit(t[1]))
  }

  /** The number a short field stands for; a leading blank (in ` 5`) is ignored. */
  function FieldValue(t: string): nat {
    if |t| == 1 && IsDigit(t[0]) then DigitValue(t[0])
    else if |t| == 2 && t[0] == ' ' && IsDigit(t[1]) then DigitValue(t[1])
    else if |t| == 2 && IsDigit(t[0]) && IsDigit(t[1]) then 10 * DigitValue(t[0]) + DigitValue(t[1])
    else 0
  }

  /** The date built from already matched fields, or None when `datetime.date` would refuse it. */
  function MakeDate(y: string, m: string, d: string): (r: Option<Date>)
    requires |y| == 4 && AllDigits(y)
    ensures r.Some? ==> IsValidDate(r.value)
  {
    var date := Date(DigitsValue(y), FieldValue(m), FieldValue(d));
    if IsValidDate(date) then Some(date) else None
  }

  /**
   * `datetime.strptime(s, '%Y-%m-%d').date()`, None standing for ValueError.
   * No field can hold '-', so the regular expression strptime builds matches
   * exactly when splitting at '-' gives a four-digit year, a month field and
   * a day field that runs to the end of the string.
   */
  function ParseDate(s: string): (r: Option<Date>)
    ensures r.Some? ==> IsValidDate(r.value)
  {
    var parts := Split(s, '-');
    if |parts| == 3 && |parts[0]| == 4 && AllDigits(parts[0])
       && IsMonthToken(parts[1]) && IsDayToken(parts[2])
    then MakeDate(parts[0], parts[1], parts[2])
    else None
  }

  /** The `%d` field at the front of `rest` when a blank run follows it: its text and what is after it. */
  function DayThenBlank(rest: string): Option<(string, string)> {
    if |rest| >= 2 && rest[0] == ' ' then
      if IsDayToken(rest[..2]) && |rest| > 2 && IsSpace(rest[2]) then Some((rest[..2], rest[2..])) else None
    else if |rest| >= 2 && IsDigit(rest[0]) && IsDigit(rest[1]) then
      if IsDayToken(rest[..2]) && |rest| > 2 && IsSpace(rest[2]) then Some((rest[..2], rest[2..])) else None
    else if |rest| >= 1 && IsDigit(rest[0]) then
      if IsDayToken(rest[..1]) && |rest| > 1 && IsSpace(rest[1]) then Some((rest[..1], rest[1..])) else None
    else None
  }

  /**
   * `datetime.strptime(s, '%Y-%m-%d %H:%M')` as a date, an hour and a minute.
   * strptime turns the blank of the format into `\s+`, so any run of white
   * space separates the day from the hour.
   */
  function ParseDateTime(s: string): (r: Option<(Date, int, int)>)
    ensures r.Some? ==> IsValidDate(r.value.0) && 0 <= r.value.1 < 24 && 0 <= r.value.2 < 60
  {
    var parts := Split(s, '-');
    if !(|parts| == 3 && |parts[0]| == 4 && AllDigits(parts[0]) && IsMonthToken(parts[1])) then None
    else
      match DayThenBlank(parts[2])
      case None => None
      case Some((d, after)) =>
        var clock := Split(StripLeft(after), ':');
        if |clock| == 2 && IsHourToken(clock[0]) && IsMinuteToken(clock[1]) then
          match MakeDate(parts[0], parts[1], d)
          case None => None
          case Some(date) =>
            assert FieldValue(clock[0]) < 24 && FieldValue(clock[1]) < 60;
            Some((date, FieldValue(clock[0]) as int, FieldValue(clock[1]) as int))
        else None
  }

  /** The `%Y` field for the years 1 to 9999, zero-padded to four digits. */
  function Pad4(n: int): (s: string)
    requires 0 <= n <= 9999
    ensures |s| == 4 && AllDigits(s)
  {
    [DigitChar(n / 1000), DigitChar(n / 100 % 10), DigitChar(n / 10 % 10), DigitChar(n % 10)]
  }

  /** `date.strftime('%Y-%m-%d')`. */
  function FormatDate(d: Date): string
    requires IsValidDate(d)
  {
    Pad4(d.year) + "-" + Pad2(d.month) + "-" + Pad2(d.day)
  }

  /** `datetime.strftime('%Y-%m-%d %H:%M')`. */
  function FormatDateTime(d: Date, hour: int, minute: int): string
    requires IsValidDate(d) && 0 <= hour < 24 && 0 <= minute < 60
  {
    FormatDate(d) + " " + Pad2(hour) + ":" + Pad2(minute)
  }

  lemma Pad2Small(n: int)
    requires 0 <= n < 100
    ensures Pad2(n) == [DigitChar(n / 10), DigitChar(n % 10)]
  {
    if n >= 10 {
      assert NatToString(n) == NatToString(n / 10) + [DigitChar(n % 10)];
    }
  }

  lemma Pad4Value(n: int)
    requires 0 <= n <= 9999
    ensures DigitsValue(Pad4(n)) == n
  {
    var s := Pad4(n);
    DigitsValueSnoc([], s[0]);
    assert [] + [s[0]] == s[..1] && s[..1] + [s[1]] == s[..2] && s[..2] + [s[2]] == s[..3] && s[..3] + [s[3]] == s;
    DigitsValueSnoc(s[..1], s[1]);
    DigitsValueSnoc(s[..2], s[2]);
    DigitsValueSnoc(s[..3], s[3]);
    DecimalSteps(n);
  }

  /** Appending a digit shifts the value one decimal place. */
  lemma DigitsValueSnoc(s: string, c: char)
    requires AllDigits(s) && IsDigit(c)
    ensures AllDigits(s + [c]) && DigitsValue(s + [c]) == DigitsValue(s) * 10 + DigitValue(c)
  {
    assert (s + [c])[..|s|] == s;
  }

  lemma DecimalSteps(n: int)
    requires 0 <= n <= 9999
    ensures n / 1000 * 10 + n / 100 % 10 == n / 100
    ensures n / 100 * 10 + n / 10 % 10 == n / 10
    ensures n / 10 * 10 + n % 10 == n
  {
  }

  lemma FormatDateSplits(d: Date)
    requires IsValidDate(d)
    ensures Split(FormatDate(d), '-') == [Pad4(d.year), Pad2(d.month), Pad2(d.day)]
  {
    Pad2Small(d.month);
    Pad2Small(d.day);
    var y, m, dd := Pad4(d.year), Pad2(d.month), Pad2(d.day);
    assert FormatDate(d) == y + ['-'] + (m + ['-'] + dd);
    SplitCons(y, '-', m + ['-'] + dd);
    SplitCons(m, '-', dd);
    SplitNoSep(dd, '-');
  }

  /** strptime reads back what strftime writes: the "%Y-%m-%d" text of a date parses to that date. */
  lemma ParseFormatDate(d: Date)
    requires IsValidDate(d)
    ensures ParseDate(FormatDate(d)) == Some(d)
  {
    FormatDateSplits(d);
    PaddedFields(d);
  }

  /** The padded fields of a valid date are the tokens strptime accepts, and they rebuild the date. */
  lemma PaddedFields(d: Date)
    requires IsValidDate(d)
    ensures IsMonthToken(Pad2(d.month)) && IsDayToken(Pad2(d.day))
    ensures MakeDate(Pad4(d.year), Pad2(d.month), Pad2(d.day)) == Some(d)
  {
    Pad2Small(d.month);
    Pad2Small(d.day);
    Pad4Value(d.year);
  }

  lemma DayThenBlankOfPadded(day: int, after: string)
    requires 1 <= day <= 31 && after != [] && IsSpace(after[0])
    ensures DayThenBlank(Pad2(day) + after) == Some((Pad2(day), after))
  {
    Pad2Small(day);
    var tail := Pad2(day) + after;
    assert tail[..2] == Pad2(day) && tail[2..] == after;
    assert IsDigit(tail[0]) && IsDigit(tail[1]);
  }

  lemma ClockSplit(hour: int, minute: int)
    requires 0 <= hour < 24 && 0 <= minute < 60
    ensures Split(StripLeft(" " + Pad2(hour) + ":" + Pad2(minute)), ':') == [Pad2(hour), Pad2(minute)]
    ensures IsHourToken(Pad2(hour)) && IsMinuteToken(Pad2(minute))
    ensures FieldValue(Pad2(hour)) == hour && FieldValue(Pad2(minute)) == minute
  {
    Pad2Small(hour);
    Pad2Small(minute);
    var hh, mm := Pad2(hour), Pad2(minute);
    var after := " " + hh + ":" + mm;
    assert after[1..] == hh + [':'] + mm;
    assert StripLeft(after) == StripLeft(after[1..]);
    assert StripLeft(after) == hh + [':'] + mm;
    SplitCons(hh, ':', mm);
    SplitNoSep(mm, ':');
  }

  lemma ParseDateTimeFromFields(s: string, y: string, m: string, tail: string, dd: string,
                                after: string, hh: string, mm: string, date: Date)
    requires Split(s, '-') == [y, m, tail] && |y| == 4 && AllDigits(y) && IsMonthToken(m)
    requires DayThenBlank(tail) == Some((dd, after))
    requires Split(StripLeft(after), ':') == [hh, mm] && IsHourToken(hh) && IsMinuteToken(mm)
    requires MakeDate(y, m, dd) == Some(date)
    ensures ParseDateTime(s) == Some((date, FieldValue(hh) as int, FieldValue(mm) as int))
  {
  }

  lemma FormatDateTimeSplits(d: Date, hour: int, minute: int)
    requires IsValidDate(d) && 0 <= hour < 24 && 0 <= minute < 60
    ensures Split(FormatDateTime(d, hour, minute), '-')
         == [Pad4(d.year), Pad2(d.month), Pad2(d.day) + " " + Pad2(hour) + ":" + Pad2(minute)]
  {
    var y, m := Pad4(d.year), Pad2(d.month);
    var tail := Pad2(d.day) + " " + Pad2(hour) + ":" + Pad2(minute);
    var rest := m + ['-'] + tail;
    FormatDateTimeShape(d, hour, minute);
    FieldsNoDash(d);
    SplitCons(y, '-', rest);
    SplitCons(m, '-', tail);
    ClockTailNoDash(d.day, hour, minute);
    SplitNoSep(tail, '-');
  }

  lemma FormatDateTimeShape(d: Date, hour: int, minute: int)
    requires IsValidDate(d) && 0 <= hour < 24 && 0 <= minute < 60
    ensures FormatDateTime(d, hour, minute)
         == Pad4(d.year) + ['-'] + (Pad2(d.month) + ['-'] + (Pad2(d.day) + " " + Pad2(hour) + ":" + Pad2(minute)))
  {
    var y, m, dd, hh, mm := Pad4(d.year), Pad2(d.month), Pad2(d.day), Pad2(hour), Pad2(minute);
    var p := y + "-" + m + "-";
    assert FormatDateTime(d, hour, minute) == p + dd + " " + hh + ":" + mm;
    RegroupTail(p, dd, " ", hh, ":", mm);
    RegroupDashes(y, m, dd + " " + hh + ":" + mm);
  }

  lemma RegroupTail(p: string, a: string, b: string, c: string, e: string, f: string)
    ensures p + a + b + c + e + f == p + (a + b + c + e + f)
  {
  }

  lemma RegroupDashes(a: string, b: string, c: string)
    ensures a + "-" + b + "-" + c == a + ['-'] + (b + ['-'] + c)
  {
  }

  lemma FieldsNoDash(d: Date)
    requires IsValidDate(d)
    ensures '-' !in Pad4(d.year) && '-' !in Pad2(d.month)
  {
    Pad2Small(d.month);
    var y := Pad4(d.year);
    assert y == [y[0], y[1], y[2], y[3]] && IsDigit(y[0]) && IsDigit(y[1]) && IsDigit(y[2]) && IsDigit(y[3]);
  }

  lemma ClockTailNoDash(day: int, hour: int, minute: int)
    requires 0 <= day < 100 && 0 <= hour < 24 && 0 <= minute < 60
    ensures '-' !in Pad2(day) + " " + Pad2(hour) + ":" + Pad2(minute)
  {
    Pad2Small(day);
    Pad2Small(hour);
    Pad2Small(minute);
    var tail := Pad2(day) + " " + Pad2(hour) + ":" + Pad2(minute);
    assert tail == [DigitChar(day / 10), DigitChar(day % 10), ' ', DigitChar(hour / 10), DigitChar(hour % 10),
                    ':', DigitChar(minute / 10), DigitChar(minute % 10)];
  }

  /** The "%Y-%m-%d %H:%M" text of a date and time parses back to that date and time. */
  lemma ParseFormatDateTime(d: Date, hour: int, minute: int)
    requires IsValidDate(d) && 0 <= hour < 24 && 0 <= minute < 60
    ensures ParseDateTime(FormatDateTime(d, hour, minute)) == Some((d, hour, minute))
  {
    PaddedFields(d);
    var y, m, dd := Pad4(d.year), Pad2(d.month), Pad2(d.day);
    var after := " " + Pad2(hour) + ":" + Pad2(minute);
    FormatDateTimeSplits(d, hour, minute);
    ClockSplit(hour, minute);
    DayThenBlankOfPadded(d.day, after);
    assert dd + after == Pad2(d.day) + " " + Pad2(hour) + ":" + Pad2(minute);
    ParseDateTimeFromFields(FormatDateTime(d, hour, minute), y, m, dd + after, dd, after,
                            Pad2(hour), Pad2(minute), d);
  }
}

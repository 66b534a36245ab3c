/**
 * The two display columns of the EmployeeSchedule admin
 * (booking_api/admin.py): a minute count shown as `HH:MM`.
 */
module Admin {
  import opened Wrappers
  import opened Text
  import opened Calendar
  import opened Models

  /** `f"{minutes // 60:02d}:{minutes % 60:02d}"`; Python's floor division is Dafny's for the divisor 60. */
  function MinutesDisplay(minutes: int): string {
    Pad2(minutes / 60) + ":" + Pad2(minutes % 60)
  }

  /** Reading a display back: `int(hours) * 60 + int(minutes)`, None unless it is two integers around one ':'. */
  function ReadDisplay(s: string): Option<int> {
    ReadFieldsOf(Split(s, ':'))
  }

  /** The fields between the ':' separators: exactly two, each an integer. */
  function ReadFieldsOf(parts: seq<string>): Option<int> {
    if |parts| != 2 then None
    else
      var hours := ParseInt(parts[0]);
      var mins := ParseInt(parts[1]);
      if hours.Some? && mins.Some? then Some(hours.value * 60 + mins.value) else None
  }

  /** `int()` reads back what the `02d` format wrote, leading zero included. */
  lemma ParsePad2(k: int)
    ensures ParseInt(Pad2(k)) == Some(k)
  {
    if k < 0 || k >= 10 {
      ParseIntOfIntToString(k);
    } else {
      var s := Pad2(k);
      assert s == ['0', DigitChar(k)];
      StripUnchanged(s);
      assert IsUnderscoredDigits(s);
      RemoveUnderscoresOfDigits(s);
      assert s[..1] == ['0'];
      assert DigitsValue(s) == DigitsValue(['0']) * 10 + k;
    }
  }

  lemma Pad2NoColon(k: int)
    ensures ':' !in Pad2(k)
  {
    assert AllDigits(NatToString(if k < 0 then -k else k));
  }

  /** The display splits at its one ':' into the hour field and the minute field. */
  lemma DisplaySplits(minutes: int)
    ensures Split(MinutesDisplay(minutes), ':') == [Pad2(minutes / 60), Pad2(minutes % 60)]
  {
    Pad2NoColon(minutes / 60);
    Pad2NoColon(minutes % 60);
    SplitCons(Pad2(minutes / 60), ':', Pad2(minutes % 60));
    SplitNoSep(Pad2(minutes % 60), ':');
    assert MinutesDisplay(minutes) == Pad2(minutes / 60) + [':'] + Pad2(minutes % 60);
  }

  lemma ReadFields(a: string, b: string, x: int, y: int)
    requires ':' !in a && ':' !in b
    requires ParseInt(a) == Some(x) && ParseInt(b) == Some(y)
    ensures ReadDisplay(a + ":" + b) == Some(x * 60 + y)
  {
    SplitColon(a, b);
    ReadOfFields(a, b, x, y);
  }

  lemma SplitColon(a: string, b: string)
    requires ':' !in a && ':' !in b
    ensures Split(a + ":" + b, ':') == [a, b]
  {
    SplitCons(a, ':', b);
    SplitNoSep(b, ':');
    assert a + ":" + b == a + [':'] + b;
  }

  lemma ReadOfFields(a: string, b: string, x: int, y: int)
    requires ParseInt(a) == Some(x) && ParseInt(b) == Some(y)
    ensures ReadFieldsOf([a, b]) == Some(x * 60 + y)
  {
    var parts := [a, b];
    assert parts[0] == a && parts[1] == b;
  }

  /**
   * The display loses nothing: hours * 60 + minutes read back from it is the
   * minute count, for every integer.
   */
  lemma FieldsRoundTrip(h: int, m: int)
    ensures ReadDisplay(Pad2(h) + ":" + Pad2(m)) == Some(h * 60 + m)
  {
    Pad2NoColon(h);
    Pad2NoColon(m);
    ParsePad2(h);
    ParsePad2(m);
    ReadFields(Pad2(h), Pad2(m), h, m);
  }

  lemma DisplayRoundTrip(minutes: int)
    ensures ReadDisplay(MinutesDisplay(minutes)) == Some(minutes)
  {
    var h, m := minutes / 60, minutes % 60;
    FieldsRoundTrip(h, m);
    Euclid60(minutes);
    assert h * 60 + m == minutes;
  }

  lemma Euclid60(n: int)
    ensures (n / 60) * 60 + n % 60 == n
  {
  }

  /** The minute field is always two digits with a value in 0..59, equal to minutes mod 60. */
  lemma MinuteField(minutes: int)
    ensures var parts := Split(MinutesDisplay(minutes), ':');
      && |parts| == 2 && |parts[1]| == 2 && AllDigits(parts[1])
      && ParseInt(parts[1]) == Some(minutes % 60) && 0 <= minutes % 60 < 60
  {
    DisplaySplits(minutes);
    Pad2Small(minutes % 60);
    ParsePad2(minutes % 60);
  }

  /** For the minute bounds a schedule allows, the display is exactly five characters `HH:MM`. */
  lemma ScheduleDisplayShape(minutes: int)
    requires 0 <= minutes <= MinutesPerDay
    ensures |MinutesDisplay(minutes)| == 5 && MinutesDisplay(minutes)[2] == ':'
    ensures AllDigits(MinutesDisplay(minutes)[..2]) && AllDigits(MinutesDisplay(minutes)[3..])
  {
    Pad2Small(minutes / 60);
    Pad2Small(minutes % 60);
  }

  /** A schedule row that passes the field validators shows both of its bounds as `HH:MM`. */
  lemma ValidScheduleDisplays(s: Schedule)
    requires ValidSchedule(s)
    ensures |StartMinutesDisplay(s)| == 5 && StartMinutesDisplay(s)[2] == ':'
    ensures |EndMinutesDisplay(s)| == 5 && EndMinutesDisplay(s)[2] == ':'
  {
    ScheduleDisplayShape(s.startMinutes);
    ScheduleDisplayShape(s.endMinutes);
    DisplaysAgree(s);
  }

  /** The ends of the day: 0 is "00:00" and 1440 is "24:00". */
  lemma DisplayOfDayBounds()
    ensures MinutesDisplay(0) == "00:00"
    ensures MinutesDisplay(MinutesPerDay) == "24:00"
  {
    Pad2Small(0);
    Pad2Small(24);
  }

  /** `start_minutes_display`. */
  function StartMinutesDisplay(s: Schedule): (r: string)
    ensures ReadDisplay(r) == Some(s.startMinutes)
    ensures 0 <= s.startMinutes <= MinutesPerDay ==> |r| == 5
  {
    DisplayRoundTrip(s.startMinutes);
    if 0 <= s.startMinutes <= MinutesPerDay then ScheduleDisplayShape(s.startMinutes); MinutesDisplay(s.startMinutes)
    else MinutesDisplay(s.startMinutes)
  }

  /** `end_minutes_display`: the same format applied to the end. */
  function EndMinutesDisplay(s: Schedule): (r: string)
    ensures ReadDisplay(r) == Some(s.endMinutes)
    ensures 0 <= s.endMinutes <= MinutesPerDay ==> |r| == 5
  {
    DisplayRoundTrip(s.endMinutes);
    if 0 <= s.endMinutes <= MinutesPerDay then ScheduleDisplayShape(s.endMinutes); MinutesDisplay(s.endMinutes)
    else MinutesDisplay(s.endMinutes)
  }

  /** Both columns show a schedule's bounds by one formula: equal minute counts display alike. */
  lemma DisplaysAgree(s: Schedule)
    ensures StartMinutesDisplay(s) == MinutesDisplay(s.startMinutes)
    ensures EndMinutesDisplay(s) == MinutesDisplay(s.endMinutes)
    ensures s.startMinutes == s.endMinutes <==> StartMinutesDisplay(s) == EndMinutesDisplay(s)
  {
    DisplayRoundTrip(s.startMinutes);
    DisplayRoundTrip(s.endMinutes);
  }
}

/**
 * The pure pieces of the Telegram bot (telegram_bot/telegram_bot.py): the
 * phone-number cleaner, the routing of inline-button callbacks in
 * `button_handler` together with its month navigation, the day cells and
 * navigation header of `create_calendar`, and the three-per-row grouping of
 * slot buttons in `show_available_slots`.
 */
module TelegramBot {
  import opened Wrappers
  import opened Text
  import opened Calendar

  predicate StartsWith(s: string, prefix: string) {
    |prefix| <= |s| && s[..|prefix|] == prefix
  }

  // ----- clean_phone_number -----

  /** `re.sub(r'\D', '', s)` over ASCII digits: the digits of `s`, in order. */
  function DigitsOnly(s: string): (r: string)
    ensures AllDigits(r) && |r| <= |s|
    decreases |s|
  {
    if s == [] then []
    else (if IsDigit(s[0]) then [s[0]] else []) + DigitsOnly(s[1..])
  }

  /** `clean_phone_number(phone)`. */
  function CleanPhoneNumber(phone: string): string {
    if StartsWith(phone, "+") then "+" + DigitsOnly(phone) else DigitsOnly(phone)
  }

  /** Removing non-digits distributes over concatenation, so digits keep their order. */
  lemma {:induction false} DigitsOnlyConcat(a: string, b: string)
    ensures DigitsOnly(a + b) == DigitsOnly(a) + DigitsOnly(b)
    decreases |a|
  {
    if a == [] {
      assert a + b == b;
    } else {
      var ab, t := a + b, a[1..];
      var h := if IsDigit(a[0]) then [a[0]] else [];
      assert ab[0] == a[0] && ab[1..] == t + b;
      assert DigitsOnly(ab) == h + DigitsOnly(t + b);
      assert DigitsOnly(a) == h + DigitsOnly(t);
      DigitsOnlyConcat(t, b);
    }
  }

  /** A string of digits is its own digit string. */
  lemma {:induction false} DigitsOnlyOfDigits(s: string)
    requires AllDigits(s)
    ensures DigitsOnly(s) == s
    decreases |s|
  {
    if s != [] {
      DigitsOnlyOfDigits(s[1..]);
      assert [s[0]] + s[1..] == s;
    }
  }

  /**
   * The cleaned number holds only digits, except a '+' in front, which is
   * there exactly when the input starts with '+'; its digits are the
   * input's digits in order.
   */
  lemma CleanPhoneNumberShape(phone: string)
    ensures var r := CleanPhoneNumber(phone);
      && (forall i :: 0 <= i < |r| ==> IsDigit(r[i]) || (i == 0 && r[i] == '+'))
      && ((|r| > 0 && r[0] == '+') <==> StartsWith(phone, "+"))
      && DigitsOnly(r) == DigitsOnly(phone)
  {
    var r := CleanPhoneNumber(phone);
    var d := DigitsOnly(phone);
    DigitsOnlyOfDigits(d);
    if StartsWith(phone, "+") {
      DigitsOnlyConcat("+", d);
      assert DigitsOnly("+") == [];
    } else if |r| > 0 {
      assert IsDigit(r[0]);
    }
  }

  lemma DigitsOnlyAfterPlus(d: string)
    requires AllDigits(d)
    ensures DigitsOnly("+" + d) == d
  {
    DigitsOnlyOfDigits(d);
    DigitsOnlyConcat("+", d);
    assert DigitsOnly("+") == [];
  }

  /** Cleaning a cleaned number changes nothing. */
  lemma CleanPhoneNumberIdempotent(phone: string)
    ensures CleanPhoneNumber(CleanPhoneNumber(phone)) == CleanPhoneNumber(phone)
  {
    var d := DigitsOnly(phone);
    if StartsWith(phone, "+") {
      DigitsOnlyAfterPlus(d);
      var r := "+" + d;
      assert r[..1] == "+";
      assert CleanPhoneNumber(r) == "+" + DigitsOnly(r);
    } else {
      DigitsOnlyOfDigits(d);
      if d != [] {
        assert IsDigit(d[0]);
        assert d[..1] != "+";
      }
      assert CleanPhoneNumber(d) == DigitsOnly(d);
    }
  }

  // ----- month navigation -----

  /** The month a NEXT or PREV step lands on; None for another direction or a year `datetime.date` refuses. */
  function MonthStep(direction: string, year: int, month: int): Option<(int, int)> {
    var target :=
      if direction == "NEXT" then Some(if month == 12 then (year + 1, 1) else (year, month + 1))
      else if direction == "PREV" then Some(if month == 1 then (year - 1, 12) else (year, month - 1))
      else None;
    if target.Some? && IsValidDate(Date(target.value.0, target.value.1, 1)) then target else None
  }

  /** A month as a count of months, so that a step is plus or minus one. */
  function MonthIndex(year: int, month: int): int {
    year * 12 + (month - 1)
  }

  /**
   * NEXT moves one month forward and PREV one month back, into a valid
   * month (December to January of the next year, January to December of the
   * previous one, otherwise month plus or minus one in the same year); a
   * step fails only past the years 1..9999 or for any other direction.
   */
  lemma MonthStepMoves(direction: string, year: int, month: int)
    requires 1 <= month <= 12
    ensures var r := MonthStep(direction, year, month);
      && (r.Some? ==> 1 <= r.value.1 <= 12 && 1 <= r.value.0 <= 9999)
      && (r.Some? && direction == "NEXT" ==> MonthIndex(r.value.0, r.value.1) == MonthIndex(year, month) + 1)
      && (r.Some? && direction == "PREV" ==> MonthIndex(r.value.0, r.value.1) == MonthIndex(year, month) - 1)
      && (direction != "NEXT" && direction != "PREV" ==> r.None?)
      && (direction == "NEXT" && month == 12 && 1 <= year + 1 <= 9999 ==> r == Some((year + 1, 1)))
      && (direction == "PREV" && month == 1 && 1 <= year - 1 <= 9999 ==> r == Some((year - 1, 12)))
      && (direction == "NEXT" && month < 12 && 1 <= year <= 9999 ==> r == Some((year, month + 1)))
      && (direction == "PREV" && month > 1 && 1 <= year <= 9999 ==> r == Some((year, month - 1)))
  {
  }

  /** NEXT then PREV comes back to the month it started from, and so does PREV then NEXT. */
  lemma MonthStepInverse(year: int, month: int)
    requires 1 <= year <= 9999 && 1 <= month <= 12
    ensures var r := MonthStep("NEXT", year, month);
      r.Some? ==> MonthStep("PREV", r.value.0, r.value.1) == Some((year, month))
    ensures var r := MonthStep("PREV", year, month);
      r.Some? ==> MonthStep("NEXT", r.value.0, r.value.1) == Some((year, month))
  {
  }

  // ----- button_handler routing -----

  /** What `button_handler` does with a callback. */
  datatype Action =
    | StartBooking
    | ViewAppointments
    | Ignore
    | ChooseService(serviceId: string)
    | ChooseEmployee(employeeId: string)
    | ShowMonth(year: int, month: int, serviceId: string)
    | NavigationFails
    | ChooseDay(date: string)
    | ChooseSlot(slot: string)
    | CancelAppointment
    | NoAction

  /**
   * The CALEND_NAV_ branch: too few fields, a year or month `int()` refuses,
   * a month `datetime.date` refuses, or an unknown direction (which leaves
   * `next_date` unbound) make the handler raise.
   */
  function Navigate(parts: seq<string>): Action {
    if |parts| < 6 then NavigationFails
    else
      var year := ParseInt(parts[3]);
      var month := ParseInt(parts[4]);
      if year.None? || month.None? || !IsValidDate(Date(year.value, month.value, 1)) then NavigationFails
      else
        match MonthStep(parts[2], year.value, month.value)
        case None => NavigationFails
        case Some((y, m)) => ShowMonth(y, m, parts[5])
  }

  /** `'_'.join(fields)`: how the bot writes its callbacks. */
  function Join(fields: seq<string>): string
    decreases |fields|
  {
    if fields == [] then ""
    else if |fields| == 1 then fields[0]
    else fields[0] + "_" + Join(fields[1..])
  }

  /** Splitting `a_rest` with a free of '_' puts a first. */
  lemma SplitFront(a: string, rest: string)
    requires '_' !in a
    ensures Split(a + "_" + rest, '_') == [a] + Split(rest, '_')
  {
    SplitCons(a, '_', rest);
    assert a + "_" + rest == a + ['_'] + rest;
  }

  /** Joining fields free of '_' and splitting again gives the fields back. */
  lemma {:induction false} SplitJoin(fields: seq<string>)
    requires |fields| >= 1
    requires forall k :: 0 <= k < |fields| ==> '_' !in fields[k]
    ensures Split(Join(fields), '_') == fields
    decreases |fields|
  {
    if |fields| == 1 {
      SplitNoSep(fields[0], '_');
    } else {
      SplitJoin(fields[1..]);
      SplitFront(fields[0], Join(fields[1..]));
    }
  }

  /** One more field in front: the field, a '_', then the rest joined. */
  lemma JoinCons(a: string, rest: seq<string>)
    requires |rest| >= 1
    ensures Join([a] + rest) == a + "_" + Join(rest)
  {
    assert ([a] + rest)[1..] == rest;
  }

  lemma StartsWithConcat(p: string, s: string)
    ensures StartsWith(p + s, p)
  {
    assert (p + s)[..|p|] == p;
  }

  /** A string is split in at least three fields when it starts with `a_b_` (a and b free of '_'). */
  lemma SplitAfterTwo(data: string, a: string, b: string)
    requires '_' !in a && '_' !in b && StartsWith(data, a + "_" + b + "_")
    ensures |Split(data, '_')| >= 3
  {
    var n := |a + "_" + b + "_"|;
    var rest := data[n..];
    assert data == a + "_" + (b + "_" + rest);
    SplitFront(a, b + "_" + rest);
    SplitFront(b, rest);
  }

  lemma SplitAfterOne(data: string, a: string)
    requires '_' !in a && StartsWith(data, a + "_")
    ensures |Split(data, '_')| >= 2
  {
    var rest := data[|a| + 1..];
    assert data == a + "_" + rest;
    SplitFront(a, rest);
  }

  /** The branches of `button_handler`, tried in order. */
  function Route(data: string): Action {
    var parts := Split(data, '_');
    if data == "start_booking" then StartBooking
    else if data == "view_appointments" then ViewAppointments
    else if data == "IGNORE" then Ignore
    else if StartsWith(data, "service_") then
      SplitAfterOne(data, "service");
      ChooseService(parts[1])
    else if StartsWith(data, "employee_") then
      SplitAfterOne(data, "employee");
      ChooseEmployee(parts[1])
    else if StartsWith(data, "CALEND_NAV_") then Navigate(parts)
    else if StartsWith(data, "CALEND_DAY_") then
      SplitAfterTwo(data, "CALEND", "DAY");
      ChooseDay(parts[2])
    else if StartsWith(data, "SLOT_") then
      SplitAfterOne(data, "SLOT");
      ChooseSlot(parts[1])
    else if StartsWith(data, "CANCEL_") then CancelAppointment
    else NoAction
  }

  lemma NatToStringNoUnderscore(n: nat)
    ensures '_' !in NatToString(n)
  {
    assert AllDigits(NatToString(n));
  }

  lemma IntToStringNoUnderscore(n: int)
    ensures '_' !in IntToString(n)
  {
    NatToStringNoUnderscore(if n < 0 then -n else n);
  }

  lemma FormatDateNoUnderscore(d: Date)
    requires IsValidDate(d)
    ensures '_' !in FormatDate(d)
  {
    Pad2Small(d.month);
    Pad2Small(d.day);
    assert AllDigits(Pad4(d.year));
  }

  // ----- create_calendar -----

  /** An inline button: its label and its callback data. */
  datatype Button = Button(text: string, callback: string)

  /** The callback of a selectable day: `CALEND_DAY_YYYY-MM-DD`. */
  function DayCallback(day: Date): string
    requires IsValidDate(day)
  {
    Join(["CALEND", "DAY", FormatDate(day)])
  }

  /** The cell of one day of the grid for `month`, given today's date. */
  function DayCell(day: Date, month: int, today: Date): Button
    requires IsValidDate(day)
  {
    if day.month != month then Button(" ", "IGNORE")
    else if DateLess(day, today) then Button("❌", "IGNORE")
    else Button(IntToString(day.day), DayCallback(day))
  }

  /** A callback that starts `CALEND_` followed by a letter other than N is no navigation. */
  lemma NotNavigation(s: string)
    requires |s| > 11 && s[..7] == "CALEND_" && s[7] != 'N'
    ensures !StartsWith(s, "CALEND_NAV_")
  {
    assert s[..11][7] == s[7];
  }

  /** A callback that starts `CALEND_` reaches none of the first branches of the handler. */
  lemma CalendarPrefix(s: string)
    requires |s| > 11 && s[..7] == "CALEND_"
    ensures s != "start_booking" && s != "view_appointments" && s != "IGNORE"
    ensures !StartsWith(s, "service_") && !StartsWith(s, "employee_")
    ensures !StartsWith(s, "SLOT_") && !StartsWith(s, "CANCEL_")
  {
    assert s[0] == s[..7][0] && s[2] == s[..7][2];
    assert s[0] == 'C' && s[2] == 'L';
    assert s[..7][2] == 'L';
  }

  /**
   * A day of another month is blank and a past day crossed out, both
   * ignored; any other day shows its number and its callback routes to that
   * very date.
   */
  lemma DayCellClassification(day: Date, month: int, today: Date)
    requires IsValidDate(day) && IsValidDate(today)
    ensures var cell := DayCell(day, month, today);
      && (day.month != month ==> cell == Button(" ", "IGNORE") && Route(cell.callback) == Ignore)
      && (day.month == month && DateLess(day, today) ==> cell == Button("❌", "IGNORE"))
      && (day.month == month && !DateLess(day, today) ==>
            && ParseInt(cell.text) == Some(day.day)
            && Route(cell.callback) == ChooseDay(FormatDate(day))
            && ParseDate(FormatDate(day)) == Some(day))
  {
    if day.month == month && !DateLess(day, today) {
      ParseIntOfIntToString(day.day);
      ParseFormatDate(day);
      DayCallbackRoutes(day);
    }
  }

  /** The callback of a selectable day routes to that day's date. */
  lemma DayCallbackRoutes(day: Date)
    requires IsValidDate(day)
    ensures Route(DayCallback(day)) == ChooseDay(FormatDate(day))
  {
    FormatDateNoUnderscore(day);
    var fields := ["CALEND", "DAY", FormatDate(day)];
    SplitJoin(fields);
    var cb := DayCallback(day);
    JoinCons("DAY", [FormatDate(day)]);
    JoinCons("CALEND", ["DAY", FormatDate(day)]);
    assert cb == "CALEND_DAY_" + FormatDate(day);
    StartsWithConcat("CALEND_DAY_", FormatDate(day));
    assert cb[..11] == "CALEND_DAY_";
    assert |Pad4(day.year)| == 4;
    CalendarPrefix(cb);
    NotNavigation(cb);
  }

  /** The callback of an arrow: `CALEND_<direction>_<year>_<month>_<service>` as written. */
  function ArrowCallback(direction: string, year: int, month: int, serviceId: string): string {
    Join(["CALEND", direction, IntToString(year), IntToString(month), serviceId])
  }

  /** The callback the CALEND_NAV_ branch reads: `CALEND_NAV_<direction>_<year>_<month>_<service>`. */
  function NavCallback(direction: string, year: int, month: int, serviceId: string): string {
    Join(["CALEND", "NAV", direction, IntToString(year), IntToString(month), serviceId])
  }

  /** The header of `create_calendar` as written. */
  function CalendarHeader(year: int, month: int, serviceId: string, title: string): seq<Button> {
    [Button("⬅️", ArrowCallback("PREV", year, month, serviceId)),
     Button(title, "IGNORE"),
     Button("➡️", ArrowCallback("NEXT", year, month, serviceId))]
  }

  /** The header with the callbacks the handler reads. */
  function FixedCalendarHeader(year: int, month: int, serviceId: string, title: string): seq<Button> {
    [Button("⬅️", NavCallback("PREV", year, month, serviceId)),
     Button(title, "IGNORE"),
     Button("➡️", NavCallback("NEXT", year, month, serviceId))]
  }

  lemma ArrowCallbackShape(direction: string, year: int, month: int, serviceId: string)
    requires |direction| == 4
    ensures var cb := ArrowCallback(direction, year, month, serviceId);
      |cb| > 12 && cb[..7] == "CALEND_" && cb[7..11] == direction && cb[11] == '_'
  {
    var rest := Join([IntToString(year), IntToString(month), serviceId]);
    var cb := ArrowCallback(direction, year, month, serviceId);
    JoinCons(direction, [IntToString(year), IntToString(month), serviceId]);
    JoinCons("CALEND", [direction, IntToString(year), IntToString(month), serviceId]);
    assert cb == "CALEND" + "_" + (direction + "_" + rest);
    assert cb == "CALEND_" + direction + "_" + rest;
    assert |IntToString(year)| >= 1;
  }

  /** As written, pressing either arrow of the calendar does nothing: no branch of the handler matches. */
  lemma ArrowsAreDead(year: int, month: int, serviceId: string, title: string)
    ensures Route(CalendarHeader(year, month, serviceId, title)[0].callback) == NoAction
    ensures Route(CalendarHeader(year, month, serviceId, title)[2].callback) == NoAction
  {
    var prev := ArrowCallback("PREV", year, month, serviceId);
    var next := ArrowCallback("NEXT", year, month, serviceId);
    ArrowCallbackShape("PREV", year, month, serviceId);
    ArrowCallbackShape("NEXT", year, month, serviceId);
    CalendarOther(prev);
    CalendarOther(next);
    RouteOfCalendar(prev);
    RouteOfCalendar(next);
  }

  /** A `CALEND_` callback whose next four characters are neither `NAV_` nor `DAY_` takes neither branch. */
  lemma CalendarOther(s: string)
    requires |s| > 11 && s[..7] == "CALEND_" && s[7..11] != "NAV_" && s[7..11] != "DAY_"
    ensures !StartsWith(s, "CALEND_NAV_") && !StartsWith(s, "CALEND_DAY_")
  {
    assert s[7..11] == s[..11][7..11];
  }

  /**
   * With the corrected header, each arrow of a shown month routes to the
   * neighbouring month, for the same service.
   */
  lemma FixedArrowsNavigate(year: int, month: int, serviceId: string, title: string)
    requires IsValidDate(Date(year, month, 1)) && '_' !in serviceId
    ensures var h := FixedCalendarHeader(year, month, serviceId, title);
      && (MonthStep("PREV", year, month).Some? ==>
            Route(h[0].callback) == ShowMonth(MonthStep("PREV", year, month).value.0,
                                              MonthStep("PREV", year, month).value.1, serviceId))
      && (MonthStep("NEXT", year, month).Some? ==>
            Route(h[2].callback) == ShowMonth(MonthStep("NEXT", year, month).value.0,
                                              MonthStep("NEXT", year, month).value.1, serviceId))
  {
    NavRoutes("PREV", year, month, serviceId);
    NavRoutes("NEXT", year, month, serviceId);
  }

  /** A navigation callback for a valid month routes to the month its step lands on. */
  lemma NavRoutes(direction: string, year: int, month: int, serviceId: string)
    requires direction == "PREV" || direction == "NEXT"
    requires IsValidDate(Date(year, month, 1)) && '_' !in serviceId
    ensures MonthStep(direction, year, month).Some? ==>
      Route(NavCallback(direction, year, month, serviceId))
        == ShowMonth(MonthStep(direction, year, month).value.0, MonthStep(direction, year, month).value.1, serviceId)
  {
    IntToStringNoUnderscore(year);
    IntToStringNoUnderscore(month);
    var fields := ["CALEND", "NAV", direction, IntToString(year), IntToString(month), serviceId];
    SplitJoin(fields);
    var cb := NavCallback(direction, year, month, serviceId);
    var rest := Join(fields[2..]);
    JoinCons("NAV", fields[2..]);
    JoinCons("CALEND", fields[1..]);
    assert cb == "CALEND" + "_" + ("NAV" + "_" + rest);
    assert cb == "CALEND_NAV_" + rest;
    StartsWithConcat("CALEND_NAV_", rest);
    assert |rest| >= 4;
    assert cb[..7] == cb[..11][..7];
    RouteOfCalendar(cb);
    NavigateFields(direction, year, month, serviceId);
  }

  /** The CALEND_ callbacks: NAV navigates, DAY chooses the third field, anything else does nothing. */
  lemma RouteOfCalendar(s: string)
    requires |s| > 11 && s[..7] == "CALEND_"
    ensures StartsWith(s, "CALEND_NAV_") ==> Route(s) == Navigate(Split(s, '_'))
    ensures !StartsWith(s, "CALEND_NAV_") && StartsWith(s, "CALEND_DAY_") ==>
      |Split(s, '_')| >= 3 && Route(s) == ChooseDay(Split(s, '_')[2])
    ensures !StartsWith(s, "CALEND_NAV_") && !StartsWith(s, "CALEND_DAY_") ==> Route(s) == NoAction
  {
    CalendarPrefix(s);
    if StartsWith(s, "CALEND_DAY_") {
      SplitAfterTwo(s, "CALEND", "DAY");
    }
  }

  /** The fields of a navigation callback for a valid month name the month its step lands on. */
  lemma NavigateFields(direction: string, year: int, month: int, serviceId: string)
    requires IsValidDate(Date(year, month, 1))
    ensures MonthStep(direction, year, month).Some? ==>
      Navigate(["CALEND", "NAV", direction, IntToString(year), IntToString(month), serviceId])
        == ShowMonth(MonthStep(direction, year, month).value.0, MonthStep(direction, year, month).value.1, serviceId)
  {
    ParseIntOfIntToString(year);
    ParseIntOfIntToString(month);
    var fields := ["CALEND", "NAV", direction, IntToString(year), IntToString(month), serviceId];
    assert fields[2] == direction && fields[3] == IntToString(year) && fields[4] == IntToString(month) && fields[5] == serviceId;
  }

  // ----- slot buttons, three per row -----

  function SlotButton(slot: string): Button {
    Button(slot, Join(["SLOT", slot]))
  }

  function SlotButtons(slots: seq<string>): (r: seq<Button>)
    ensures |r| == |slots| && forall k :: 0 <= k < |slots| ==> r[k] == SlotButton(slots[k])
    decreases |slots|
  {
    if slots == [] then [] else SlotButtons(slots[..|slots| - 1]) + [SlotButton(slots[|slots| - 1])]
  }

  /** Consecutive chunks of three buttons, the last one shorter when the count is not a multiple of three. */
  function Rows(buttons: seq<Button>): seq<seq<Button>>
    decreases |buttons|
  {
    if buttons == [] then []
    else if |buttons| <= 3 then [buttons]
    else [buttons[..3]] + Rows(buttons[3..])
  }

  function Flatten(rows: seq<seq<Button>>): seq<Button>
    decreases |rows|
  {
    if rows == [] then [] else rows[0] + Flatten(rows[1..])
  }

  /** Chunking a prefix whose length is a multiple of three does not disturb the rest. */
  lemma {:induction false} RowsAppend(a: seq<Button>, b: seq<Button>)
    requires |a| % 3 == 0
    ensures Rows(a + b) == Rows(a) + Rows(b)
    decreases |a|
  {
    if a == [] {
      assert a + b == b;
    } else if b == [] {
      assert a + b == a;
    } else {
      ThirdStep(|a|);
      var ab, head, tail := a + b, a[..3], a[3..];
      assert ab[..3] == head && ab[3..] == tail + b;
      RowsFront(ab);
      RowsAppend(tail, b);
      if |a| == 3 {
        assert head == a && tail == [];
      } else {
        RowsFront(a);
      }
    }
  }

  lemma RowsFront(x: seq<Button>)
    requires |x| > 3
    ensures Rows(x) == [x[..3]] + Rows(x[3..])
  {
  }

  lemma ThirdStep(n: int)
    requires n > 0 && n % 3 == 0
    ensures n >= 3 && (n - 3) % 3 == 0
  {
  }

  /**
   * The rows give back the buttons in order; every row holds one to three
   * buttons and every row but the last exactly three.
   */
  lemma {:induction false} RowsFacts(buttons: seq<Button>)
    ensures Flatten(Rows(buttons)) == buttons
    ensures forall k :: 0 <= k < |Rows(buttons)| ==> 1 <= |Rows(buttons)[k]| <= 3
    ensures forall k :: 0 <= k < |Rows(buttons)| - 1 ==> |Rows(buttons)[k]| == 3
    decreases |buttons|
  {
    if |buttons| > 3 {
      RowsFacts(buttons[3..]);
      var r := Rows(buttons);
      assert r[1..] == Rows(buttons[3..]);
      assert buttons[..3] + buttons[3..] == buttons;
    }
  }

  /** Closing a full row extends the chunking of the prefix by that row. */
  lemma CloseRow(buttons: seq<Button>, start: int, end: int)
    requires 0 <= start && end == start + 3 && end <= |buttons| && start % 3 == 0
    ensures Rows(buttons[..end]) == Rows(buttons[..start]) + [buttons[start..end]]
  {
    var row := buttons[start..end];
    assert buttons[..end] == buttons[..start] + row;
    RowsAppend(buttons[..start], row);
    assert Rows(row) == [row];
  }

  lemma GrowRow(buttons: seq<Button>, start: int, i: int)
    requires 0 <= start <= i < |buttons|
    ensures buttons[start..i] + [buttons[i]] == buttons[start..i + 1]
  {
  }

  /** The last, partial row is appended when it holds any button. */
  lemma CloseLast(buttons: seq<Button>, start: int)
    requires 0 <= start <= |buttons| && |buttons| - start < 3 && start % 3 == 0
    ensures Rows(buttons) == Rows(buttons[..start]) + (if start == |buttons| then [] else [buttons[start..]])
  {
    var row := buttons[start..];
    assert buttons == buttons[..start] + row;
    RowsAppend(buttons[..start], row);
  }

  /** The loop of `show_available_slots` that lays the slot buttons out in rows of three. */
  method GroupSlotButtons(slots: seq<string>) returns (keyboard: seq<seq<Button>>)
    ensures keyboard == Rows(SlotButtons(slots))
  {
    ghost var buttons := SlotButtons(slots);
    ghost var start := 0;
    keyboard := [];
    var row: seq<Button> := [];
    var i := 0;
    while i < |slots|
      invariant 0 <= start <= i <= |slots| && i - start < 3 && start % 3 == 0
      invariant row == buttons[start..i]
      invariant keyboard == Rows(buttons[..start])
    {
      assert buttons[i] == SlotButton(slots[i]);
      GrowRow(buttons, start, i);
      row := row + [SlotButton(slots[i])];
      if |row| == 3 {
        CloseRow(buttons, start, i + 1);
        keyboard := keyboard + [row];
        row := [];
        start := i + 1;
      }
      i := i + 1;
    }
    CloseLast(buttons, start);
    assert row == buttons[start..];
    if row != [] {
      keyboard := keyboard + [row];
    }
  }

  /** A slot button's callback routes back to its own slot text, for any text without '_' (such as HH:MM). */
  lemma SlotCallbackRoundTrip(slot: string)
    requires '_' !in slot
    ensures Route(SlotButton(slot).callback) == ChooseSlot(slot)
  {
    SplitJoin(["SLOT", slot]);
    var cb := SlotButton(slot).callback;
    JoinCons("SLOT", [slot]);
    assert cb == "SLOT_" + slot;
    StartsWithConcat("SLOT_", slot);
    RouteOfSlot(cb);
  }

  /** A callback that starts `SLOT_` chooses the slot in its second field. */
  lemma RouteOfSlot(s: string)
    requires StartsWith(s, "SLOT_")
    ensures |Split(s, '_')| >= 2 && Route(s) == ChooseSlot(Split(s, '_')[1])
  {
    SplitAfterOne(s, "SLOT");
    assert s[0] == s[..5][0] == 'S';
    NoPrefixStartingOtherwise(s, "start_booking");
    NoPrefixStartingOtherwise(s, "view_appointments");
    NoPrefixStartingOtherwise(s, "IGNORE");
    NoPrefixStartingOtherwise(s, "service_");
    NoPrefixStartingOtherwise(s, "employee_");
    NoPrefixStartingOtherwise(s, "CALEND_NAV_");
    NoPrefixStartingOtherwise(s, "CALEND_DAY_");
  }

  /** Strings whose first characters differ neither are equal nor start one with the other. */
  lemma NoPrefixStartingOtherwise(s: string, p: string)
    requires s != [] && p != [] && s[0] != p[0]
    ensures s != p && !StartsWith(s, p)
  {
    if |p| <= |s| {
      assert s[..|p|][0] == s[0];
    }
  }
}

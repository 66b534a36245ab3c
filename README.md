# MasterTimeProject booking engine in Dafny

A Dafny model of the availability and booking engine of MasterTimeProject, the Django REST back end and the Telegram bot that staff-appointment businesses use to take bookings. It covers:

- **The `BookingService` slot generator** (`booking_api/services.py`):
  - it projects one employee's active appointments of the day onto minute offsets;
  - it subtracts them from the working intervals in one sweep;
  - it cuts the free time into slots one service length apart, rounding the start up on the current day.
- **The second slot generator** `calculate_available_slots` (`booking_api/utils.py`):
  - it rejects a bad date, a past date or an unknown service;
  - it steps every selected schedule in 30-minute steps and drops slots that overlap a PENDING or CONFIRMED appointment;
  - it sorts the offers by time, then by employee name.
- **The booking guards**:
  - `AppointmentSerializer.validate` and `create` (`booking_api/serializers.py`);
  - the Telegram creation view `TelegramAppointmentCreationView.post` (`booking_api/views.py`).
- **The rest of `booking_api/views.py`**: the employee queryset, the category grouping of the Telegram catalog, the parameter check and status of `list_available_slots`, and the seven-day analytics report.
- **The records of `booking_api/models.py`** and their constraints.
- **The `HH:MM` columns** of the schedule admin (`booking_api/admin.py`).
- **The pure parts of the bot** (`telegram_bot/telegram_bot.py`): phone-number cleaning, callback routing and month navigation, calendar cells, and slot buttons three per row.
- **The `send_reminders` command** (`booking_api/management/commands/send_reminders.py`).

Each module follows one source file:

| module | file | models |
|---|---|---|
| `Wrappers` | `wrappers.dfy` | `Option` |
| `Text` | `text.dfy` | digits, `str(n)`, `int(s)`, the `02d` format, `str.split`, string order |
| `Calendar` | `calendar.dfy` | dates, ordinals, weekdays, `strptime` of `%Y-%m-%d` and `%Y-%m-%d %H:%M`, `strftime` |
| `Models` | `models.dfy` | `booking_api/models.py` |
| `Intervals` | `intervals.dfy` | the interval algebra of `_subtract_intervals` |
| `Services` | `booking_service.dfy` | the `BookingService` class |
| `SlotCalculator` | `slot_calculator.dfy` | `booking_api/utils.py` |
| `Serializers` | `serializers.dfy` | `booking_api/serializers.py` |
| `Views` | `views.dfy` | `booking_api/views.py` |
| `Admin` | `admin.dfy` | `booking_api/admin.py` |
| `TelegramBot` | `telegram_bot.dfy` | `telegram_bot/telegram_bot.py` |
| `Reminders` | `reminders.dfy` | `booking_api/management/commands/send_reminders.py` |

How time, tables and loops are represented:

- **Time.** Instants are integers: seconds on the local clock, counted from midnight of 0001-01-01. `Midnight(d)` is the first second of date `d`.
- **Now.** "Now" is an input `Clock(today, secondOfDay)`.
- **Tables.** A table is a sequence of records in the order the query yields them.
- **Imperative code.** The source's loops are methods proved against specification functions:
  - `SubtractIntervals`, `BookedIntervals` and `GetAvailableSlots`;
  - `CalculateAvailableSlots`, `AppendShiftSlots` and `IsBooked`;
  - `GroupByCategory`, `GroupSlotButtons` and `SendReminders`.

  The properties the source promises are then lemmas about those functions.

## Model

| member | source | states |
|---|---|---|
| `Intervals.SortIntervalsFacts` | booking_api/services.py:58 | `sorted(subtrahend_intervals)` is ordered as Python orders (start, end) tuples and is a permutation of its argument |
| `Intervals.SortIntervalsOrderFree` | booking_api/services.py:58 | two busy lists with the same elements sort to the same list, so the result of the subtraction does not depend on their order |
| `Intervals.SortedUnique` | booking_api/services.py:58 | two sorted permutations of one multiset are equal |
| `Intervals.SweepPieces` | booking_api/services.py:64-75 | every piece the inner loop emits for one working interval is non-empty and lies between the cursor and the interval's end |
| `Intervals.SweepSound` | booking_api/services.py:61-75 | a minute covered by the inner loop's output lies in the working interval and in no busy interval |
| `Intervals.SweepComplete` | booking_api/services.py:61-75 | every minute from the cursor to the end that no busy interval covers is covered by the inner loop's output |
| `Intervals.SweepOrdered` | booking_api/services.py:64-75 | with well-formed busy intervals the pieces of one working interval come in increasing, non-overlapping order |
| `Intervals.OrderedConcat` | booking_api/services.py:61-75 | joining two ordered lists, the first ending before the second starts, gives an ordered list |
| `Intervals.SubtractPieces` | booking_api/services.py:69-75 | every returned interval has start < end and lies inside one base interval |
| `Intervals.SubtractSortedSound` | booking_api/services.py:58-72 | against a sorted busy list, no returned minute is busy, and each lies in some base interval |
| `Intervals.SubtractSortedComplete` | booking_api/services.py:61-75 | every free minute of a base interval is returned |
| `Intervals.SubtractSortedOrdered` | booking_api/services.py:61-75 | ordered base intervals with well-formed busy intervals give ordered pieces |
| `Intervals.WellFormedPermutation` | booking_api/services.py:58 | sorting keeps every busy interval well formed |
| `Intervals.FreePermutation` | booking_api/services.py:58 | a minute is free of a busy list iff it is free of any permutation of it |
| `Intervals.SubtractExact` | booking_api/services.py:54-77 | a minute is covered by the result iff it lies in a base interval and in no busy interval, whatever the order of the busy list |
| `Intervals.SubtractDisjoint` | booking_api/services.py:54-77 | for ordered base intervals and well-formed busy ones the result is ordered and no minute lies in two of its intervals, so each free minute appears exactly once |
| `Intervals.MalformedBusyBreaksOrder` | booking_api/services.py:64-72 | a busy interval with end < start makes the output out of order: the well-formedness precondition of `SubtractDisjoint` is needed |
| `Intervals.NonEmpty` | booking_api/services.py:61-75 | keeps the base intervals with start < end, in order |
| `Intervals.SubtractNothing` | booking_api/services.py:61-75 | with no busy interval the result is the base intervals with start < end, unchanged and in input order |
| `Services.BookedOfMembers` | booking_api/services.py:29-49 | an interval is booked iff it is the floor-minute projection, from that day's midnight, of an appointment of this employee that starts on that day and is not CANCELLED or COMPLETED |
| `Services.BookedStartsInDay` | booking_api/services.py:37-42 | every booked interval starts within the day, at minute 0 to 1439 |
| `Services.CeilToStepLeast` | booking_api/services.py:143-144 | the rounded start is the least multiple of the slot length that is at least the current minute |
| `Services.SliceClosedForm` | booking_api/services.py:152-166 | the k-th slot of a free interval starts k slot lengths after the first, and the next start would not fit |
| `Services.SliceBounds` | booking_api/services.py:152 | every slot of one free interval starts at or after its first start and ends by the interval's end |
| `Services.SlotsOfFit` | booking_api/services.py:103-166 | every slot lies inside one free interval; on the current day it starts at or after the rounded-up minute, which is at least the current minute |
| `Services.SlotsAreBookable` | booking_api/services.py:79-168 | every minute of every slot is working time and no booked interval covers it |
| `Services.BookingService.constructor` | booking_api/services.py:10-15 | keeps the employee, service and date, and takes the total duration of the service as the slot length |
| `Services.BookingService.BookedIntervals` | booking_api/services.py:21-51 | the loop returns exactly the booked projection `BookedOf` |
| `Services.BookingService.SubtractIntervals` | booking_api/services.py:54-77 | the nested loops compute `Subtract(base, busy)` |
| `Services.BookingService.GetAvailableSlots` | booking_api/services.py:79-168 | returns the instants of `SlotsOf(Subtract(base, booked), …)`: midnight plus each slot's minute |
| `SlotCalculator.FindService` | booking_api/utils.py:31-36 | finds a service with the requested id when there is one, and reports absence only when none has it |
| `SlotCalculator.SelectedSchedules` | booking_api/utils.py:44-53 | keeps exactly the schedules of the organization on that weekday, of the given employee, or else of the employees who provide the service |
| `SlotCalculator.SelectedOnePerEmployee` | booking_api/models.py:133 | under the one-schedule-per-employee-and-weekday constraint, the selected rows name each employee at most once |
| `SlotCalculator.BookedFor` | booking_api/utils.py:97-101 | keeps exactly the PENDING and CONFIRMED appointments of that employee on that date |
| `SlotCalculator.NextStepAfter` | booking_api/utils.py:79-85 | the first candidate after the current minute is strictly later, at most 30 minutes later and on the 30-minute grid, even when now is on the grid |
| `SlotCalculator.FirstCandidateAfterNow` | booking_api/utils.py:79-91 | on the current day the first candidate instant is after now |
| `SlotCalculator.ShiftSlotsExact` | booking_api/utils.py:108-137 | an offer is produced for one shift iff it is on the 30-minute grid from the first candidate, fits the shift, is not before now on the current day and overlaps no blocking appointment |
| `SlotCalculator.InsertSlotFacts` | booking_api/utils.py:140 | inserting an offer keeps the list sorted by (time, employee name) and adds exactly that offer |
| `SlotCalculator.SortSlotsFacts` | booking_api/utils.py:140 | the sort returns a permutation of the offers sorted by (time, employee name) |
| `SlotCalculator.CalculateSlotsRejects` | booking_api/utils.py:20-36 | a malformed date gives the 400 format error and nothing else does; a past date gives the 400 past-date error, and only a past date does; an unknown service id gives the 404 error, and only that does; every error carries its code |
| `SlotCalculator.ScheduleSlotsSound` | booking_api/utils.py:59-137 | an offer of one schedule names its employee, starts at or after the shift start and ends at time + duration, by the shift end; it lies on the grid, after now on the current day, and overlaps no PENDING or CONFIRMED appointment of that employee |
| `SlotCalculator.EmptyShiftGivesNothing` | booking_api/utils.py:73-74 | a schedule with end at or before start contributes no slot |
| `SlotCalculator.CollectSlotsFrom` | booking_api/utils.py:59-137 | every collected offer comes from one of the schedules |
| `SlotCalculator.CollectedOfferSound` | booking_api/utils.py:44-137 | every collected offer fits a selected schedule, ends one total duration after it starts and is after now on the current day |
| `SlotCalculator.CalculateSlotsSound` | booking_api/utils.py:13-142 | a successful result is sorted; each offer fits a selected schedule, avoids every blocking appointment, has the service's total duration and is not before now on the current day |
| `SlotCalculator.FutureOffersAfterNow` | booking_api/utils.py:92-94 | on a later date every offer is after now |
| `SlotCalculator.IsBooked` | booking_api/utils.py:116-125 | the inner loop reports booked iff some appointment overlaps the half-open slot |
| `SlotCalculator.AppendShiftSlots` | booking_api/utils.py:59-137 | the loop for one schedule appends exactly that schedule's offers |
| `SlotCalculator.CalculateAvailableSlots` | booking_api/utils.py:13-142 | the imperative function returns `CalculateSlots` |
| `Models.NewAppointment` | booking_api/models.py:89 | a new appointment is PENDING and not yet reminded |
| `Models.NoDoubleBookingGivesUniqueStarts` | booking_api/models.py:95-97 | non-overlapping non-empty appointments never share (employee, start_time) |
| `Models.AppendKeepsNoDoubleBooking` | booking_api/serializers.py:76-88 | adding an appointment that overlaps none of its employee's keeps the table free of double bookings |
| `Models.ReplaceKeepsNoDoubleBooking` | booking_api/serializers.py:83-88 | replacing one appointment by one that overlaps no other of its employee's keeps the table free of double bookings |
| `Serializers.ConflictsOf` | booking_api/serializers.py:76-85 | keeps exactly the appointments of the employee, of any status, with start < new end and end > new start, other than the instance |
| `Serializers.FirstByPk` | booking_api/serializers.py:89 | `.first()` is the conflict with the least id |
| `Serializers.ValidateOutcome` | booking_api/serializers.py:54-99 | fails under "employee" iff no employee; under "start_time" iff the start is before now; under "time_slot" iff some conflict exists; on success the data carries end = start + duration_minutes |
| `Serializers.SlotTakenReportsConflict` | booking_api/serializers.py:88-97 | the error names the employee and the start and end of the first conflicting appointment |
| `Serializers.TouchingDoesNotConflict` | booking_api/serializers.py:77-79 | an appointment ending where the new one starts, or starting where it ends, is no conflict |
| `Serializers.InstanceNeverConflicts` | booking_api/serializers.py:83-85 | on update the edited appointment is never its own conflict |
| `Serializers.AcceptKeepsNoDoubleBooking` | booking_api/serializers.py:54-99 | storing an accepted new booking keeps the table free of double bookings |
| `Serializers.AcceptUpdateKeepsNoDoubleBooking` | booking_api/serializers.py:83-99 | accepting an update of an appointment keeps the table free of double bookings |
| `Serializers.FindClient` | booking_api/serializers.py:108-111 | finds a client with that phone number when there is one, and reports absence only when none has it |
| `Serializers.GetOrCreateClient` | booking_api/serializers.py:108-111 | the client returned has the requested phone number |
| `Serializers.GetOrCreateClientFacts` | booking_api/serializers.py:108-112 | keeps phone numbers unique; returns the existing client unchanged, or a new one with the given name, only when no client has the number |
| `Serializers.CreateFacts` | booking_api/serializers.py:102-118 | a created appointment is appended, PENDING, with the validated employee, start and end, and a client holding the phone number |
| `Serializers.AcceptedCreateSucceeds` | booking_api/serializers.py:102-118 | with positive durations, an accepted booking is created without an integrity error |
| `Views.FilterEmployees` | booking_api/views.py:34-58 | keeps exactly the employees of the organization that, when a service is given, provide it |
| `Views.EmployeeQuerysetEmpty` | booking_api/views.py:40-56 | the list is empty when organization_id is missing or not an integer, or service_id is given and not an integer |
| `Views.EmployeeQuerysetMembers` | booking_api/views.py:40-58 | with valid ids an employee is listed iff it belongs to the organization and provides the given service |
| `Views.CategoryOrderFacts` | booking_api/views.py:103-107 | the keys of the catalog have no duplicates and are exactly the categories of the services, '' and None read as 'Без категории' |
| `Views.BucketOfConcat` | booking_api/views.py:103-107 | a bucket of a longer list is the bucket of its first part followed by that of the rest, so order is kept |
| `Views.BucketOfMembers` | booking_api/views.py:88-107 | a bucket holds exactly the entries of the services of that category |
| `Views.CatalogEachServiceOnce` | booking_api/views.py:88-107 | each service's entry is in its own category's bucket, in no other bucket, and under 'Без категории' when it has no category |
| `Views.BucketOfAbsent` | booking_api/views.py:103-107 | a category no service has gets no bucket entries |
| `Views.GroupStep` | booking_api/views.py:103-107 | one loop step adds a new key at the end or appends to the existing bucket |
| `Views.GroupByCategory` | booking_api/views.py:88-107 | the loop builds exactly `CategoryOrder` and `Buckets` of the services |
| `Views.ServicesOfActiveMembers` | booking_api/views.py:68-72 | the queryset holds exactly the active services of the organization |
| `Views.ServicesOfConcat` | booking_api/views.py:68-72 | the organization filter distributes over concatenation, so it keeps order |
| `Views.RespondCatalog` | booking_api/views.py:88-109 | a query that raises (an id that is not an integer) is a 500; otherwise the response is the grouping of the queryset |
| `Views.TelegramCatalog` | booking_api/views.py:77-109 | a missing org_id is a 400; otherwise the response groups the queryset as written |
| `Views.FixedTelegramCatalog` | booking_api/views.py:77-109 | the same, with the queryset filtered by org_id |
| `Views.CatalogAsWrittenIsEmpty` | booking_api/views.py:68-86 | called with org_id only, as the endpoint's own comment documents (`?org_id=1`, booking_api/views.py:75), the catalog is empty whatever the services |
| `Views.FixedCatalogListsOrganization` | booking_api/views.py:77-109 | the corrected catalog lists every active service of the organization and nothing else |
| `Views.MissingSlotParamsRejected` | booking_api/views.py:146-150 | the answer is a bare 400 iff org_id, service_id or date is missing or empty |
| `Views.SlotErrorsSentAsSuccess` | booking_api/views.py:159-163 | as written, every request that passes the parameter check is answered with status 200 |
| `Views.BadDateAnsweredWith200` | booking_api/views.py:159-163 | the date "tomorrow" is answered 200 with the format error as body |
| `Views.FixedSlotsStatus` | booking_api/views.py:159-163 | corrected, the status is 200 iff slots were offered, and otherwise the error's own 400 or 404 |
| `Views.FindEmployee` | booking_api/views.py:195 | finds an employee by id when there is one, and reports absence only when none has it |
| `Views.ClientStepFacts` | booking_api/views.py:185-191 | afterwards a client with that phone number has the requested name |
| `Views.ResolveBookingFacts` | booking_api/views.py:194-203 | fails with 404 or 400 only; on success the service, employee and organization have the ids sent, the start is the parsed `%Y-%m-%d %H:%M` and end = start + total_duration |
| `Views.BookStepFacts` | booking_api/views.py:205-226 | 409 iff some appointment of the employee has end > start and start < end; nothing is stored unless 201; on 201 the new CONFIRMED appointment overlaps none of its employee's |
| `Views.TelegramMissingFields` | booking_api/views.py:176-181 | without all seven fields the answer is 400 and nothing changes |
| `Views.TelegramClientStep` | booking_api/views.py:185-191 | with all fields the client is found or created and renamed first, whatever the outcome; appointments change only on 201 |
| `Views.TelegramConflictIff` | booking_api/views.py:205-213 | once the booking resolves, 409 iff an appointment of that employee overlaps it, and nothing is created |
| `Views.TelegramCreatedFacts` | booking_api/views.py:171-236 | a 201 appends exactly one CONFIRMED appointment with the sent address, employee, service, start and end = start + total_duration, overlapping none of its employee's |
| `Views.TelegramKeepsNoDoubleBooking` | booking_api/views.py:171-245 | the view keeps the table free of double bookings |
| `Views.AddToReportAbove` | booking_api/views.py:254-265 | counting a later day keeps every row above the bound |
| `Views.AddToReportSorted` | booking_api/views.py:254-265 | counting one appointment keeps the rows in ascending date order with positive counts |
| `Views.AddToReportRow` | booking_api/views.py:254-265 | counting one appointment adds one to its day's row and nothing to the others |
| `Views.RowForBelow` | booking_api/views.py:254-265 | a day before the first row has count 0 |
| `Views.ReportExact` | booking_api/views.py:254-265 | one row per date in ascending order, each positive and equal to the number of PENDING or CONFIRMED appointments of that date starting at or after now minus 7 days |
| `Views.ReportIgnores` | booking_api/views.py:256-258 | an appointment outside the window or of another status changes no row |
| `Admin.ParsePad2` | booking_api/admin.py:56 | `int()` reads back what `02d` writes |
| `Admin.DisplaySplits` | booking_api/admin.py:54-56 | the display is the hour field minutes div 60 and the minute field minutes mod 60 around one ':' |
| `Admin.FieldsRoundTrip` | booking_api/admin.py:54-56 | reading 60·h + m back from `h:m` gives h·60 + m |
| `Admin.DisplayRoundTrip` | booking_api/admin.py:54-56 | 60·h + m read back from the display is the minute count, for every integer |
| `Admin.MinuteField` | booking_api/admin.py:55 | the minute field is two digits worth minutes mod 60, in 0..59 |
| `Admin.ValidScheduleDisplays` | booking_api/models.py:120-127 | a schedule that passes the 0..1440 validators shows both bounds as `HH:MM` (five characters, ':' third) |
| `Admin.ScheduleDisplayShape` | booking_api/admin.py:56 | within the schedule bounds [0, 1440] the display is five characters, two digits, ':', two digits |
| `Admin.DisplayOfDayBounds` | booking_api/admin.py:53-56 | 0 shows "00:00" and 1440 shows "24:00" |
| `Admin.StartMinutesDisplay` | booking_api/admin.py:53-56 | the start column reads back as the start minutes and has five characters within the bounds |
| `Admin.EndMinutesDisplay` | booking_api/admin.py:60-63 | the end column reads back as the end minutes and has five characters within the bounds |
| `Admin.DisplaysAgree` | booking_api/admin.py:53-63 | both columns use one formula; they show the same text iff the minute counts are equal |
| `TelegramBot.DigitsOnly` | telegram_bot/telegram_bot.py:517 | the result holds only digits and is no longer than its input |
| `TelegramBot.DigitsOnlyConcat` | telegram_bot/telegram_bot.py:517 | removing non-digits distributes over concatenation, so digits keep their order |
| `TelegramBot.CleanPhoneNumberShape` | telegram_bot/telegram_bot.py:514-521 | only digits except a leading '+', present iff the input starts with '+'; the input's digits are kept in order |
| `TelegramBot.CleanPhoneNumberIdempotent` | telegram_bot/telegram_bot.py:514-521 | cleaning twice is cleaning once |
| `TelegramBot.MonthStepMoves` | telegram_bot/telegram_bot.py:706-717 | NEXT moves one month on (December to January of the next year), PREV one back (January to December of the previous year); any other month moves by one within the year; other directions fail |
| `TelegramBot.MonthStepInverse` | telegram_bot/telegram_bot.py:706-717 | NEXT then PREV, and PREV then NEXT, come back to the start |
| `TelegramBot.SplitJoin` | telegram_bot/telegram_bot.py:702 | `split('_')` gives back the fields the bot joined with '_' |
| `TelegramBot.DayCellClassification` | telegram_bot/telegram_bot.py:294-305 | another month's day is blank and ignored, a past day is '❌' and ignored, any other shows its number and routes to `CALEND_DAY_YYYY-MM-DD` of that date, which parses back to it |
| `TelegramBot.DayCallbackRoutes` | telegram_bot/telegram_bot.py:727-728 | the `CALEND_DAY_` callback written for a selectable day (line 303) reaches this branch with that day's date |
| `TelegramBot.ArrowsAreDead` | telegram_bot/telegram_bot.py:282-284 | as written, the callbacks of both arrows match no branch of the handler (lines 670-742) |
| `TelegramBot.FixedArrowsNavigate` | telegram_bot/telegram_bot.py:701-726 | with `CALEND_NAV_` callbacks each arrow shows the neighbouring month for the same service |
| `TelegramBot.NavRoutes` | telegram_bot/telegram_bot.py:701-726 | a navigation callback of a valid month routes to the month its step lands on |
| `TelegramBot.SlotButtons` | telegram_bot/telegram_bot.py:414-416 | one button per slot, in order, with callback `SLOT_<slot>` |
| `TelegramBot.RowsAppend` | telegram_bot/telegram_bot.py:411-422 | chunking a prefix of whole rows does not disturb the rest |
| `TelegramBot.RowsFacts` | telegram_bot/telegram_bot.py:411-422 | flattening the rows gives back the buttons in order; a row holds 1 to 3 buttons and every row but the last exactly 3 |
| `TelegramBot.CloseRow` | telegram_bot/telegram_bot.py:417-419 | closing a full row extends the rows of the prefix by it |
| `TelegramBot.CloseLast` | telegram_bot/telegram_bot.py:421-422 | the partial last row is added only when it holds a button |
| `TelegramBot.GroupSlotButtons` | telegram_bot/telegram_bot.py:411-422 | the loop builds exactly `Rows(SlotButtons(slots))` |
| `TelegramBot.SlotCallbackRoundTrip` | telegram_bot/telegram_bot.py:733-734 | the callback of a slot button (line 415) routes back to its own slot text |
| `Reminders.SendReminders` | booking_api/management/commands/send_reminders.py:20-86 | the array afterwards is `Remind` of the array before |
| `Reminders.RemindAt` | booking_api/management/commands/send_reminders.py:55-83 | the run stops at a row that raises, and otherwise handles the row and goes on |
| `Reminders.RemindStep` | booking_api/management/commands/send_reminders.py:55-83 | the loop invariant survives a row that does not raise: the table gains that row as reminded, the rest untouched |
| `Reminders.RemindFacts` | booking_api/management/commands/send_reminders.py:42-83 | only the flag is written; it is set iff the loop reaches the row and the row is due, has a chat id and an employee, and its send succeeded; every other flag is kept |
| `Reminders.FailedSendStaysDue` | booking_api/management/commands/send_reminders.py:77-83 | a row whose send fails is left as it was, still due |
| `Reminders.RemindedNotDueAgain` | booking_api/management/commands/send_reminders.py:77-80 | a row whose flag the run set was due and delivered, and the filter of lines 42-47 never selects it again |
| `Reminders.RemindIdempotent` | booking_api/management/commands/send_reminders.py:31-34 | a second run over the same window with the same send outcomes changes nothing |
| `Reminders.DefaultWindowIsOneDayAhead` | booking_api/management/commands/send_reminders.py:22-34 | unconfigured, the window is [now + 24 h, now + 24 h + 1 min) |
| `Reminders.WindowsTile` | booking_api/management/commands/send_reminders.py:29-34 | run once a minute, every later start falls in the window of exactly one run |
| `Text.ParseIntOfIntToString` | booking_api/views.py:43 | `int(str(n)) == n` |
| `Text.Split` | telegram_bot/telegram_bot.py:702 | `split` gives at least one field and no field contains the separator |
| `Text.SplitCons` | telegram_bot/telegram_bot.py:702 | a field free of the separator followed by one separator splits off first |
| `Calendar.DateLessIsOrdinalLess` | booking_api/utils.py:28 | a date is earlier iff its ordinal is smaller |
| `Calendar.Weekday` | booking_api/utils.py:38 | `weekday()` is 0..6 |
| `Calendar.ParseDate` | booking_api/utils.py:21 | a date `strptime` accepts is a valid date |
| `Calendar.ParseFormatDate` | booking_api/utils.py:21 | `strptime` of `strftime('%Y-%m-%d')` gives the date back |
| `Calendar.ParseDateTime` | booking_api/views.py:198 | an accepted `%Y-%m-%d %H:%M` has a valid date, an hour in 0..23 and a minute in 0..59 |
| `Calendar.ParseFormatDateTime` | booking_api/views.py:198 | `strptime` reads back the `%Y-%m-%d %H:%M` text of any valid date and time |

## Left out

- Network and messaging: the bot's HTTP calls and token refresh, its async handlers and keyboard rendering, and the e-mail and Telegram notifications. The outcome of a reminder send is an input set of ids.
- Timezones: `make_aware`, `astimezone`, DST and ISO formatting. Instants are seconds on one local clock.
- The database: persistence, `select_related`, `order_by` (tables keep input order) and the check-then-insert race (concurrency).
- `float(service.base_price)` in the catalog entry: the model keeps an integer price.
- `re.sub(r'\D', …)`: the model removes everything but the ASCII digits 0-9, not every Unicode digit.
- `Text.ParseInt`: accepts only the ASCII digits 0-9 and strips only ASCII whitespace, while Python's `int()` accepts every Unicode decimal digit (`int("١٢") == 12`) and strips Unicode whitespace (`int("\u00a05") == 5`); every `int(...)` of a request or callback field in booking_api/views.py and booking_api/utils.py is modelled by it.
- `Calendar.ParseDate`: its digits are the ASCII digits only, while `strptime`'s `%Y`, `%m` and `%d` match Unicode decimal digits.
- `Calendar.ParseDateTime`: its digits and its separating space are ASCII only, while `strptime` matches Unicode digits and Unicode whitespace.
- The week grid of `calendar.monthdatescalendar` and the weekday header row: `DayCell` models one cell.
- The text of messages and error bodies. JSON numbers that arrive as numbers rather than text.
- Exceptions other than those named in the code: any other failure is the 500 of the generic handler.
- `Services.BookingService.GetAvailableSlots`: requires a positive slot length. With a zero length the source raises ZeroDivisionError at booking_api/services.py:143-144 when the date is today and a free interval exists, and otherwise its slot loop never ends; with a negative length the loop never ends either.
- `Employee.get_working_intervals` is not part of this model: the working intervals are an input sequence.
- `models.py` has no `total_duration`, `base_duration`, `category`, `address`, `client_chat_id` or `is_client_reminder_sent`. They are plain fields of the records.
- The serializer computes the end from `duration_minutes`, the views from `total_duration`. Each is modelled as written.
- Neither conflict check looks at status: a CANCELLED appointment still blocks. The Telegram view has no past-time check. The analytics window has no upper bound. All are modelled as written.
- `Reminders.SendReminders`: a failure of the database query or of the send itself is not modelled. The only exception modelled is reading the name of a deleted employee, which ends the run.

## Findings

| source | as written | input that shows it | evidently intended | confidence | as-written member | corrected member |
|---|---|---|---|---|---|---|
| telegram_bot/telegram_bot.py:282-284,701 | the calendar arrows send `CALEND_PREV_…` and `CALEND_NEXT_…`, but the handler only navigates on `CALEND_NAV_…` | pressing ⬅️ for any month: `CALEND_PREV_2025_5_3` matches no branch | the arrows navigate to the neighbouring month | high, not executed | `TelegramBot.ArrowsAreDead` | `TelegramBot.FixedArrowsNavigate` |
| booking_api/views.py:159-163 | `calculate_available_slots` returns errors as a (dict, code) tuple, so the `isinstance(…, dict)` test never holds and every error is answered 200 | `org_id=1, service_id=1, date=tomorrow` | the error is returned with its own 400 or 404 status | high, not executed | `Views.BadDateAnsweredWith200` | `Views.FixedSlotsStatus` |
| booking_api/views.py:70-73,82-86 | `telegram_catalog` reads `org_id`, but the `get_queryset` it calls filters on `organization_id` and is empty without it | `GET telegram_catalog?org_id=1` with active services of organization 1 | the catalog lists the organization's active services | high, not executed | `Views.CatalogAsWrittenIsEmpty` | `Views.FixedCatalogListsOrganization` |

/**
 * `calculate_available_slots` (booking_api/utils.py): the slot offers of
 * every employee working on a date, on a fixed 30-minute grid, with error
 * results for a malformed date, a past date and an unknown service.
 *
 * Slot times are instants in seconds (see Calendar); `isoformat()` is not
 * modelled, and ordering by the ISO text is modelled as ordering by the
 * instant, which agrees with it for instants of one day in one offset.
 */
module SlotCalculator {
  import opened Wrappers
  import opened Text
  import opened Calendar
  import opened Models
  import opened Intervals

  /** SLOT_STEP_MINUTES. */
  const SlotStepMinutes := 30
  const SlotStepSeconds := SlotStepMinutes * SecondsPerMinute

  /** One entry of the result list: employee_id, employee_name, time, end_time. */
  datatype SlotOffer = SlotOffer(employeeId: int, employeeName: string, time: int, endTime: int)

  datatype SlotError = BadDateFormat | PastDate | UnknownService(serviceId: int)

  /** The HTTP code returned beside each error. */
  function ErrorCode(e: SlotError): int {
    match e
    case BadDateFormat => 400
    case PastDate => 400
    case UnknownService(_) => 404
  }

  /** A slot list, or the `({"error": ...}, code)` pair. */
  datatype SlotsResult = Offers(slots: seq<SlotOffer>) | Rejected(error: SlotError, code: int)

  /** `Service.objects.get(pk=id)`: ids are unique, so the first match is the one. */
  function FindService(services: seq<Service>, id: int): (r: Option<Service>)
    ensures r.Some? ==> r.value in services && r.value.id == id
    ensures r.None? ==> forall k :: 0 <= k < |services| ==> services[k].id != id
  {
    if services == [] then None
    else if services[0].id == id then Some(services[0])
    else FindService(services[1..], id)
  }

  /** `if employee_id:` — None and 0 are both false. */
  predicate EmployeeGiven(employeeId: Option<int>) {
    employeeId.Some? && employeeId.value != 0
  }

  /** schedule_filter: the organization, the weekday, and the chosen employee or those offering the service. */
  predicate ScheduleSelected(s: Schedule, organizationId: int, dayOfWeek: int, employeeId: Option<int>, service: Service) {
    s.employee.organizationId == organizationId && s.dayOfWeek == dayOfWeek
    && (if EmployeeGiven(employeeId) then s.employee.id == employeeId.value
        else s.employee.id in service.employeeIds)
  }

  function SelectedSchedules(schedules: seq<Schedule>, organizationId: int, dayOfWeek: int,
                             employeeId: Option<int>, service: Service): (r: seq<Schedule>)
    ensures forall k :: 0 <= k < |r| ==> r[k] in schedules && ScheduleSelected(r[k], organizationId, dayOfWeek, employeeId, service)
    ensures forall s :: s in schedules && ScheduleSelected(s, organizationId, dayOfWeek, employeeId, service) ==> s in r
    decreases |schedules|
  {
    if schedules == [] then []
    else
      var rest := SelectedSchedules(schedules[1..], organizationId, dayOfWeek, employeeId, service);
      if ScheduleSelected(schedules[0], organizationId, dayOfWeek, employeeId, service)
      then [schedules[0]] + rest else rest
  }

  /** No two rows name the same employee. */
  predicate DistinctEmployees(r: seq<Schedule>) {
    forall i, j :: 0 <= i < |r| && 0 <= j < |r| && i != j ==> r[i].employee.id != r[j].employee.id
  }

  /**
   * With one schedule row per employee and weekday, the selected rows name
   * each employee at most once, so an employee's offers come from one shift.
   */
  lemma {:induction false} SelectedOnePerEmployee(schedules: seq<Schedule>, organizationId: int, dayOfWeek: int,
                                                  employeeId: Option<int>, service: Service)
    requires OneSchedulePerDay(schedules)
    ensures DistinctEmployees(SelectedSchedules(schedules, organizationId, dayOfWeek, employeeId, service))
    decreases |schedules|
  {
    if schedules != [] {
      var t := schedules[1..];
      TailOneSchedulePerDay(schedules);
      SelectedOnePerEmployee(t, organizationId, dayOfWeek, employeeId, service);
      var rest := SelectedSchedules(t, organizationId, dayOfWeek, employeeId, service);
      if ScheduleSelected(schedules[0], organizationId, dayOfWeek, employeeId, service) {
        forall k | 0 <= k < |rest| ensures rest[k].employee.id != schedules[0].employee.id {
          HeadApart(schedules, rest[k]);
        }
        ConsDistinct(schedules[0], rest);
      }
    }
  }

  lemma TailOneSchedulePerDay(schedules: seq<Schedule>)
    requires schedules != [] && OneSchedulePerDay(schedules)
    ensures OneSchedulePerDay(schedules[1..])
  {
    var t := schedules[1..];
    forall i, j | 0 <= i < |t| && 0 <= j < |t| && i != j && t[i].employee.id == t[j].employee.id
      ensures t[i].dayOfWeek != t[j].dayOfWeek
    {
      assert t[i] == schedules[i + 1] && t[j] == schedules[j + 1];
    }
  }

  /** A later row of the head's weekday belongs to another employee. */
  lemma HeadApart(schedules: seq<Schedule>, s: Schedule)
    requires OneSchedulePerDay(schedules) && schedules != []
    requires s in schedules[1..] && s.dayOfWeek == schedules[0].dayOfWeek
    ensures s.employee.id != schedules[0].employee.id
  {
    var m :| 0 <= m < |schedules[1..]| && schedules[1..][m] == s;
    assert schedules[m + 1] == s;
  }

  lemma ConsDistinct(h: Schedule, rest: seq<Schedule>)
    requires DistinctEmployees(rest)
    requires forall k :: 0 <= k < |rest| ==> rest[k].employee.id != h.employee.id
    ensures DistinctEmployees([h] + rest)
  {
    var r := [h] + rest;
    forall i, j | 0 <= i < |r| && 0 <= j < |r| && i != j ensures r[i].employee.id != r[j].employee.id {
      if i > 0 && j > 0 {
        assert r[i] == rest[i - 1] && r[j] == rest[j - 1];
      } else if i == 0 {
        assert r[j] == rest[j - 1];
      } else {
        assert r[i] == rest[i - 1];
      }
    }
  }

  /** The booked_appointments filter: this employee, starting on the date, PENDING or CONFIRMED. */
  predicate BlocksSlots(a: Appointment, employeeId: int, day: Date)
    requires IsValidDate(day)
  {
    a.employeeId == Some(employeeId) && OnDate(a.start, day) && IsActive(a.status)
  }

  function BookedFor(appointments: seq<Appointment>, employeeId: int, day: Date): (r: seq<Appointment>)
    requires IsValidDate(day)
    ensures forall k :: 0 <= k < |r| ==> r[k] in appointments && BlocksSlots(r[k], employeeId, day)
    ensures forall a :: a in appointments && BlocksSlots(a, employeeId, day) ==> a in r
    decreases |appointments|
  {
    if appointments == [] then []
    else
      var rest := BookedFor(appointments[1..], employeeId, day);
      if BlocksSlots(appointments[0], employeeId, day) then [appointments[0]] + rest else rest
  }

  /** Some booked appointment overlaps [slotStart, slotEnd) in the half-open sense. */
  predicate Conflicts(booked: seq<Appointment>, slotStart: int, slotEnd: int) {
    exists k :: 0 <= k < |booked| && slotStart < booked[k].end && slotEnd > booked[k].start
  }

  /** `now_minutes - now_minutes % 30 + 30`. */
  function NextStep(nowMinutes: int): int {
    nowMinutes - nowMinutes % SlotStepMinutes + SlotStepMinutes
  }

  /** The next grid point is strictly after now, on the grid, at most one step away. */
  lemma NextStepAfter(nowMinutes: int)
    ensures nowMinutes < NextStep(nowMinutes) <= nowMinutes + SlotStepMinutes
    ensures NextStep(nowMinutes) % SlotStepMinutes == 0
  {
  }

  /** The first candidate of a shift: its start, or on the current day no earlier than the next grid point. */
  function FirstCandidate(day: Date, startMinutes: int, isToday: bool, clock: Clock): int
    requires IsValidDate(day) && ValidClock(clock)
  {
    var shiftStart := Midnight(day) + startMinutes * SecondsPerMinute;
    if isToday then Max(shiftStart, Midnight(day) + NextStep(clock.secondOfDay / SecondsPerMinute) * SecondsPerMinute)
    else shiftStart
  }

  /**
   * On the current day the first candidate lies strictly after now, so the
   * loop's check `current_time_slot < now` never skips a candidate.
   */
  lemma FirstCandidateAfterNow(day: Date, startMinutes: int, clock: Clock)
    requires ValidClock(clock) && day == clock.today
    ensures FirstCandidate(day, startMinutes, true, clock) > Now(clock)
  {
    var m := clock.secondOfDay / SecondsPerMinute;
    NextStepAfter(m);
    assert clock.secondOfDay < (m + 1) * SecondsPerMinute;
  }

  /** A candidate is on the 30-minute grid that starts at `first`. */
  predicate OnGrid(t: int, first: int) {
    t >= first && (t - first) % SlotStepSeconds == 0
  }

  /** What the `while` loop appends for one shift, from candidate `cursor` on. */
  function ShiftSlots(employee: Employee, cursor: int, shiftEnd: int, duration: int,
                      booked: seq<Appointment>, isToday: bool, now: int): seq<SlotOffer>
    decreases shiftEnd - duration * SecondsPerMinute - cursor
  {
    var slotEnd := cursor + duration * SecondsPerMinute;
    if slotEnd <= shiftEnd then
      var rest := ShiftSlots(employee, cursor + SlotStepSeconds, shiftEnd, duration, booked, isToday, now);
      if isToday && cursor < now then rest
      else if Conflicts(booked, cursor, slotEnd) then rest
      else [SlotOffer(employee.id, employee.name, cursor, slotEnd)] + rest
    else []
  }

  /** When a candidate of a shift is offered. */
  predicate Offered(o: SlotOffer, employee: Employee, first: int, shiftEnd: int, duration: int,
                    booked: seq<Appointment>, isToday: bool, now: int) {
    && o.employeeId == employee.id && o.employeeName == employee.name
    && OnGrid(o.time, first)
    && o.endTime == o.time + duration * SecondsPerMinute
    && o.endTime <= shiftEnd
    && !(isToday && o.time < now)
    && !Conflicts(booked, o.time, o.endTime)
  }

  /**
   * An offer is produced for a shift exactly when it is a grid point from the
   * first candidate whose slot ends within the shift, is not in the past on
   * the current day, and overlaps no booked appointment.
   */
  lemma {:induction false} ShiftSlotsExact(employee: Employee, cursor: int, shiftEnd: int, duration: int,
                                           booked: seq<Appointment>, isToday: bool, now: int, o: SlotOffer)
    ensures o in ShiftSlots(employee, cursor, shiftEnd, duration, booked, isToday, now)
            <==> Offered(o, employee, cursor, shiftEnd, duration, booked, isToday, now)
    decreases shiftEnd - duration * SecondsPerMinute - cursor
  {
    var slotEnd := cursor + duration * SecondsPerMinute;
    if slotEnd <= shiftEnd {
      var next := cursor + SlotStepSeconds;
      ShiftSlotsExact(employee, next, shiftEnd, duration, booked, isToday, now, o);
      if OnGrid(o.time, cursor) && o.time != cursor {
        assert OnGrid(o.time, next);
      }
      if OnGrid(o.time, next) {
        assert OnGrid(o.time, cursor);
        assert o.time != cursor;
      }
    } else {
      if Offered(o, employee, cursor, shiftEnd, duration, booked, isToday, now) {
        assert false;
      }
    }
  }

  /** The slots of one schedule row; a shift that ends no later than it starts gives none. */
  function ScheduleSlots(s: Schedule, day: Date, duration: int, appointments: seq<Appointment>,
                         isToday: bool, clock: Clock): seq<SlotOffer>
    requires IsValidDate(day) && ValidClock(clock)
  {
    var shiftStart := Midnight(day) + s.startMinutes * SecondsPerMinute;
    var shiftEnd := Midnight(day) + s.endMinutes * SecondsPerMinute;
    if shiftEnd <= shiftStart then []
    else ShiftSlots(s.employee, FirstCandidate(day, s.startMinutes, isToday, clock), shiftEnd, duration,
                    BookedFor(appointments, s.employee.id, day), isToday, Now(clock))
  }

  /** The list `all_available_slots` holds after the loop over the selected schedules. */
  function CollectSlots(schedules: seq<Schedule>, day: Date, duration: int, appointments: seq<Appointment>,
                        isToday: bool, clock: Clock): seq<SlotOffer>
    requires IsValidDate(day) && ValidClock(clock)
    decreases |schedules|
  {
    if schedules == [] then []
    else
      var n := |schedules| - 1;
      CollectSlots(schedules[..n], day, duration, appointments, isToday, clock)
      + ScheduleSlots(schedules[n], day, duration, appointments, isToday, clock)
  }

  // ----- the final sort by (time, employee_name) -----

  predicate SlotLeq(a: SlotOffer, b: SlotOffer) {
    a.time < b.time || (a.time == b.time && StrLeq(a.employeeName, b.employeeName))
  }

  predicate SlotsSorted(s: seq<SlotOffer>) {
    forall i, j :: 0 <= i < |s| && 0 <= j < |s| && j == i + 1 ==> SlotLeq(s[i], s[j])
  }

  /** Places `x` after every element it does not precede, so equal keys keep their order. */
  function InsertSlot(x: SlotOffer, s: seq<SlotOffer>): seq<SlotOffer> {
    if s == [] then [x]
    else if SlotLeq(s[0], x) then [s[0]] + InsertSlot(x, s[1..])
    else [x] + s
  }

  /** `list.sort(key=lambda x: (x['time'], x['employee_name']))`. */
  function SortSlots(s: seq<SlotOffer>): seq<SlotOffer>
    decreases |s|
  {
    if s == [] then [] else InsertSlot(s[|s| - 1], SortSlots(s[..|s| - 1]))
  }

  lemma {:induction false} InsertSlotFacts(x: SlotOffer, s: seq<SlotOffer>)
    requires SlotsSorted(s)
    ensures SlotsSorted(InsertSlot(x, s))
    ensures multiset(InsertSlot(x, s)) == multiset(s) + multiset{x}
    ensures InsertSlot(x, s)[0] == x || (s != [] && InsertSlot(x, s)[0] == s[0])
  {
    if s != [] {
      if SlotLeq(s[0], x) {
        var rest := s[1..];
        assert SlotsSorted(rest);
        InsertSlotFacts(x, rest);
        var r := InsertSlot(x, rest);
        assert s == [s[0]] + rest;
        assert SlotLeq(s[0], r[0]) by {
          if r[0] != x { assert rest != [] && r[0] == rest[0] == s[1]; }
        }
      } else {
        StrLeqTotal(s[0].employeeName, x.employeeName);
        assert SlotLeq(x, s[0]);
      }
    }
  }

  /** The final list is ordered by (time, employee_name) and holds exactly the collected offers. */
  lemma {:induction false} SortSlotsFacts(s: seq<SlotOffer>)
    ensures SlotsSorted(SortSlots(s))
    ensures multiset(SortSlots(s)) == multiset(s)
    decreases |s|
  {
    if s != [] {
      var n := |s| - 1;
      SortSlotsFacts(s[..n]);
      InsertSlotFacts(s[n], SortSlots(s[..n]));
      assert s == s[..n] + [s[n]];
    }
  }

  /** `calculate_available_slots(organization_id, service_id, date_str, employee_id)`. */
  function CalculateSlots(organizationId: int, serviceId: int, dateStr: string, employeeId: Option<int>,
                          services: seq<Service>, schedules: seq<Schedule>, appointments: seq<Appointment>,
                          clock: Clock): SlotsResult
    requires ValidClock(clock)
  {
    match ParseDate(dateStr)
    case None => Rejected(BadDateFormat, 400)
    case Some(target) =>
      if DateLess(target, clock.today) then Rejected(PastDate, 400)
      else
        match FindService(services, serviceId)
        case None => Rejected(UnknownService(serviceId), 404)
        case Some(service) =>
          var selected := SelectedSchedules(schedules, organizationId, Weekday(target), employeeId, service);
          if selected == [] then Offers([])
          else Offers(SortSlots(CollectSlots(selected, target, service.totalDuration, appointments,
                                             target == clock.today, clock)))
  }

  /**
   * The error results: a date not in %Y-%m-%d form, a date before today and
   * an unknown service are each rejected with their code, and nothing else is.
   */
  lemma CalculateSlotsRejects(organizationId: int, serviceId: int, dateStr: string, employeeId: Option<int>,
                              services: seq<Service>, schedules: seq<Schedule>, appointments: seq<Appointment>,
                              clock: Clock)
    requires ValidClock(clock)
    ensures var r := CalculateSlots(organizationId, serviceId, dateStr, employeeId, services, schedules, appointments, clock);
      && (ParseDate(dateStr).None? <==> r == Rejected(BadDateFormat, 400))
      && (r == Rejected(PastDate, 400) <==> ParseDate(dateStr).Some? && DateLess(ParseDate(dateStr).value, clock.today))
      && (r.Rejected? && r.error.UnknownService? <==>
            ParseDate(dateStr).Some? && !DateLess(ParseDate(dateStr).value, clock.today)
            && forall k :: 0 <= k < |services| ==> services[k].id != serviceId)
      && (r.Rejected? ==> r.code == ErrorCode(r.error))
  {
  }

  /**
   * Every offer of a schedule row lies within the shift, lasts the service's
   * duration, overlaps no PENDING or CONFIRMED appointment of that employee
   * on that date, starts on the 30-minute grid from the first candidate, and
   * on the current day does not start before now.
   */
  lemma ScheduleSlotsSound(s: Schedule, day: Date, duration: int, appointments: seq<Appointment>,
                           isToday: bool, clock: Clock, o: SlotOffer)
    requires IsValidDate(day) && ValidClock(clock)
    requires o in ScheduleSlots(s, day, duration, appointments, isToday, clock)
    ensures o.employeeId == s.employee.id && o.employeeName == s.employee.name
    ensures Midnight(day) + s.startMinutes * SecondsPerMinute <= o.time
    ensures o.endTime == o.time + duration * SecondsPerMinute
    ensures o.endTime <= Midnight(day) + s.endMinutes * SecondsPerMinute
    ensures OnGrid(o.time, FirstCandidate(day, s.startMinutes, isToday, clock))
    ensures isToday ==> o.time >= Now(clock)
    ensures forall a :: a in appointments && BlocksSlots(a, s.employee.id, day)
              ==> !(o.time < a.end && o.endTime > a.start)
  {
    var booked := BookedFor(appointments, s.employee.id, day);
    var first := FirstCandidate(day, s.startMinutes, isToday, clock);
    ShiftSlotsExact(s.employee, first, Midnight(day) + s.endMinutes * SecondsPerMinute, duration,
                    booked, isToday, Now(clock), o);
    forall a | a in appointments && BlocksSlots(a, s.employee.id, day)
      ensures !(o.time < a.end && o.endTime > a.start)
    {
      var k :| 0 <= k < |booked| && booked[k] == a;
    }
  }

  /** A schedule row whose end is not after its start contributes no slots. */
  lemma EmptyShiftGivesNothing(s: Schedule, day: Date, duration: int, appointments: seq<Appointment>,
                               isToday: bool, clock: Clock)
    requires IsValidDate(day) && ValidClock(clock)
    requires s.endMinutes <= s.startMinutes
    ensures ScheduleSlots(s, day, duration, appointments, isToday, clock) == []
  {
  }

  lemma {:induction false} CollectSlotsFrom(schedules: seq<Schedule>, day: Date, duration: int,
                                           appointments: seq<Appointment>, isToday: bool, clock: Clock, o: SlotOffer)
    requires IsValidDate(day) && ValidClock(clock)
    requires o in CollectSlots(schedules, day, duration, appointments, isToday, clock)
    ensures exists k :: 0 <= k < |schedules| && o in ScheduleSlots(schedules[k], day, duration, appointments, isToday, clock)
    decreases |schedules|
  {
    var n := |schedules| - 1;
    if o in CollectSlots(schedules[..n], day, duration, appointments, isToday, clock) {
      CollectSlotsFrom(schedules[..n], day, duration, appointments, isToday, clock, o);
      var k :| 0 <= k < n && o in ScheduleSlots(schedules[..n][k], day, duration, appointments, isToday, clock);
      assert schedules[..n][k] == schedules[k];
    }
  }

  /**
   * An offer fits schedule row `s`: it names that row's employee, lies within
   * the shift and overlaps no PENDING or CONFIRMED appointment of the employee
   * on that date.
   */
  predicate FitsSchedule(o: SlotOffer, s: Schedule, day: Date, appointments: seq<Appointment>)
    requires IsValidDate(day)
  {
    && s.employee.id == o.employeeId
    && Midnight(day) + s.startMinutes * SecondsPerMinute <= o.time
    && o.endTime <= Midnight(day) + s.endMinutes * SecondsPerMinute
    && forall a :: a in appointments && BlocksSlots(a, s.employee.id, day) ==> !(o.time < a.end && o.endTime > a.start)
  }

  lemma CollectedOfferSound(schedules: seq<Schedule>, organizationId: int, employeeId: Option<int>, service: Service,
                            day: Date, appointments: seq<Appointment>, isToday: bool, clock: Clock, o: SlotOffer)
    requires IsValidDate(day) && ValidClock(clock)
    requires o in CollectSlots(SelectedSchedules(schedules, organizationId, Weekday(day), employeeId, service),
                               day, service.totalDuration, appointments, isToday, clock)
    ensures isToday ==> o.time >= Now(clock)
    ensures o.endTime == o.time + service.totalDuration * SecondsPerMinute
    ensures exists s :: s in schedules && ScheduleSelected(s, organizationId, Weekday(day), employeeId, service)
                        && FitsSchedule(o, s, day, appointments)
  {
    var selected := SelectedSchedules(schedules, organizationId, Weekday(day), employeeId, service);
    CollectSlotsFrom(selected, day, service.totalDuration, appointments, isToday, clock, o);
    var i :| 0 <= i < |selected| && o in ScheduleSlots(selected[i], day, service.totalDuration, appointments, isToday, clock);
    ScheduleSlotsSound(selected[i], day, service.totalDuration, appointments, isToday, clock, o);
    assert FitsSchedule(o, selected[i], day, appointments);
  }

  /**
   * Every offer in a successful result comes from a selected schedule row of
   * the employee it names, fits that shift, lasts the service's total
   * duration, is blocked by no live appointment, on the current day does not
   * start before now, and the list is ordered by (time, employee_name).
   */
  lemma CalculateSlotsSound(organizationId: int, serviceId: int, dateStr: string, employeeId: Option<int>,
                            services: seq<Service>, schedules: seq<Schedule>, appointments: seq<Appointment>,
                            clock: Clock)
    requires ValidClock(clock)
    requires CalculateSlots(organizationId, serviceId, dateStr, employeeId, services, schedules, appointments, clock).Offers?
    ensures var r := CalculateSlots(organizationId, serviceId, dateStr, employeeId, services, schedules, appointments, clock);
      var target := ParseDate(dateStr).value;
      var service := FindService(services, serviceId).value;
      && SlotsSorted(r.slots)
      && forall k :: 0 <= k < |r.slots| ==>
        && (target == clock.today ==> r.slots[k].time >= Now(clock))
        && (r.slots[k].endTime == r.slots[k].time + service.totalDuration * SecondsPerMinute)
        && (exists s :: s in schedules && ScheduleSelected(s, organizationId, Weekday(target), employeeId, service)
                        && FitsSchedule(r.slots[k], s, target, appointments))
  {
    var target := ParseDate(dateStr).value;
    var service := FindService(services, serviceId).value;
    var isToday := target == clock.today;
    var selected := SelectedSchedules(schedules, organizationId, Weekday(target), employeeId, service);
    var r := CalculateSlots(organizationId, serviceId, dateStr, employeeId, services, schedules, appointments, clock);
    if selected != [] {
      var all := CollectSlots(selected, target, service.totalDuration, appointments, isToday, clock);
      SortSlotsFacts(all);
      assert r.slots == SortSlots(all);
      forall k | 0 <= k < |r.slots|
        ensures isToday ==> r.slots[k].time >= Now(clock)
        ensures r.slots[k].endTime == r.slots[k].time + service.totalDuration * SecondsPerMinute
        ensures exists s :: s in schedules && ScheduleSelected(s, organizationId, Weekday(target), employeeId, service)
                            && FitsSchedule(r.slots[k], s, target, appointments)
      {
        assert r.slots[k] in multiset(all);
        CollectedOfferSound(schedules, organizationId, employeeId, service, target, appointments, isToday, clock, r.slots[k]);
      }
    }
  }

  /**
   * On a later date every offer of a row whose start is not negative (as the
   * model's validators demand) lies after now.
   */
  lemma FutureOffersAfterNow(s: Schedule, day: Date, duration: int, appointments: seq<Appointment>,
                             clock: Clock, o: SlotOffer)
    requires IsValidDate(day) && ValidClock(clock) && DateLess(clock.today, day)
    requires s.startMinutes >= 0
    requires o in ScheduleSlots(s, day, duration, appointments, false, clock)
    ensures o.time > Now(clock)
  {
    ScheduleSlotsSound(s, day, duration, appointments, false, clock, o);
    DateLessIsOrdinalLess(clock.today, day);
  }

  /** The `is_booked` loop: true exactly when some booked appointment overlaps the slot. */
  method IsBooked(booked: seq<Appointment>, slotStart: int, slotEnd: int) returns (isBooked: bool)
    ensures isBooked <==> Conflicts(booked, slotStart, slotEnd)
  {
    isBooked := false;
    var k := 0;
    while k < |booked|
      invariant 0 <= k <= |booked|
      invariant !isBooked
      invariant forall j :: 0 <= j < k ==> !(slotStart < booked[j].end && slotEnd > booked[j].start)
    {
      if slotStart < booked[k].end && slotEnd > booked[k].start {
        isBooked := true;
        return;
      }
      k := k + 1;
    }
  }

  /**
   * Steps 4 to 7 for one schedule row with a non-empty shift: pick the first
   * candidate, then walk the 30-minute grid appending every free slot.
   */
  method AppendShiftSlots(allSlots: seq<SlotOffer>, schedule: Schedule, targetDate: Date, requiredDuration: int,
                          appointments: seq<Appointment>, isToday: bool, clock: Clock)
    returns (result: seq<SlotOffer>)
    requires IsValidDate(targetDate) && ValidClock(clock)
    ensures result == allSlots + ScheduleSlots(schedule, targetDate, requiredDuration, appointments, isToday, clock)
  {
    result := allSlots;
    var employee := schedule.employee;
    var now := Now(clock);
    var dayStart := Midnight(targetDate);
    var shiftStart := dayStart + schedule.startMinutes * SecondsPerMinute;
    var shiftEnd := dayStart + schedule.endMinutes * SecondsPerMinute;
    if shiftEnd <= shiftStart {
      return;
    }
    var current: int;
    if isToday {
      var nowMinutes := clock.secondOfDay / SecondsPerMinute;
      var remainder := nowMinutes % SlotStepMinutes;
      var nextStartMinutes := nowMinutes - remainder + SlotStepMinutes;
      current := Max(shiftStart, dayStart + nextStartMinutes * SecondsPerMinute);
    } else {
      current := shiftStart;
    }
    assert current == FirstCandidate(targetDate, schedule.startMinutes, isToday, clock);
    var booked := BookedFor(appointments, employee.id, targetDate);
    ghost var first := current;
    while current + requiredDuration * SecondsPerMinute <= shiftEnd
      invariant result + ShiftSlots(employee, current, shiftEnd, requiredDuration, booked, isToday, now)
                == allSlots + ShiftSlots(employee, first, shiftEnd, requiredDuration, booked, isToday, now)
      decreases shiftEnd - requiredDuration * SecondsPerMinute - current
    {
      var slotEnd := current + requiredDuration * SecondsPerMinute;
      ghost var before := result;
      if isToday && current < now {
        ShiftSlotsStep(before, before, allSlots, employee, current, first, shiftEnd, requiredDuration, booked, isToday, now);
        current := current + SlotStepSeconds;
        continue;
      }
      var isBooked := IsBooked(booked, current, slotEnd);
      if !isBooked {
        result := result + [SlotOffer(employee.id, employee.name, current, slotEnd)];
      }
      ShiftSlotsStep(before, result, allSlots, employee, current, first, shiftEnd, requiredDuration, booked, isToday, now);
      current := current + SlotStepSeconds;
    }
    assert ShiftSlots(employee, current, shiftEnd, requiredDuration, booked, isToday, now) == [];
  }

  /**
   * The loop invariant carried past one candidate of the grid: `after` is
   * `before` with the candidate appended exactly when it is offered.
   */
  lemma ShiftSlotsStep(before: seq<SlotOffer>, after: seq<SlotOffer>, allSlots: seq<SlotOffer>,
                       employee: Employee, cursor: int, first: int, shiftEnd: int, duration: int,
                       booked: seq<Appointment>, isToday: bool, now: int)
    requires cursor + duration * SecondsPerMinute <= shiftEnd
    requires before + ShiftSlots(employee, cursor, shiftEnd, duration, booked, isToday, now)
          == allSlots + ShiftSlots(employee, first, shiftEnd, duration, booked, isToday, now)
    requires var slotEnd := cursor + duration * SecondsPerMinute;
      after == if (isToday && cursor < now) || Conflicts(booked, cursor, slotEnd) then before
               else before + [SlotOffer(employee.id, employee.name, cursor, slotEnd)]
    ensures after + ShiftSlots(employee, cursor + SlotStepSeconds, shiftEnd, duration, booked, isToday, now)
         == allSlots + ShiftSlots(employee, first, shiftEnd, duration, booked, isToday, now)
  {
    var rest := ShiftSlots(employee, cursor + SlotStepSeconds, shiftEnd, duration, booked, isToday, now);
    if after != before {
      var o := SlotOffer(employee.id, employee.name, cursor, cursor + duration * SecondsPerMinute);
      assert (before + [o]) + rest == before + ([o] + rest);
    }
  }

  /** One more selected schedule row appends its slots to the collected list. */
  lemma CollectStep(schedules: seq<Schedule>, i: int, day: Date, duration: int, appointments: seq<Appointment>,
                    isToday: bool, clock: Clock)
    requires 0 <= i < |schedules| && IsValidDate(day) && ValidClock(clock)
    ensures CollectSlots(schedules[..i + 1], day, duration, appointments, isToday, clock)
         == CollectSlots(schedules[..i], day, duration, appointments, isToday, clock)
            + ScheduleSlots(schedules[i], day, duration, appointments, isToday, clock)
  {
    assert schedules[..i + 1][..i] == schedules[..i];
  }

  /** `calculate_available_slots` with its loops. */
  method CalculateAvailableSlots(organizationId: int, serviceId: int, dateStr: string, employeeId: Option<int>,
                                 services: seq<Service>, schedules: seq<Schedule>,
                                 appointments: seq<Appointment>, clock: Clock)
    returns (r: SlotsResult)
    requires ValidClock(clock)
    ensures r == CalculateSlots(organizationId, serviceId, dateStr, employeeId, services, schedules, appointments, clock)
  {
    var parsed := ParseDate(dateStr);
    if parsed.None? {
      return Rejected(BadDateFormat, 400);
    }
    var targetDate := parsed.value;
    var isToday := targetDate == clock.today;
    if DateLess(targetDate, clock.today) {
      return Rejected(PastDate, 400);
    }
    var found := FindService(services, serviceId);
    if found.None? {
      return Rejected(UnknownService(serviceId), 404);
    }
    var service := found.value;
    var requiredDuration := service.totalDuration;
    var dayOfWeek := Weekday(targetDate);
    var selected := SelectedSchedules(schedules, organizationId, dayOfWeek, employeeId, service);
    if selected == [] {
      return Offers([]);
    }
    var allSlots: seq<SlotOffer> := [];
    var i := 0;
    while i < |selected|
      invariant 0 <= i <= |selected|
      invariant allSlots == CollectSlots(selected[..i], targetDate, requiredDuration, appointments, isToday, clock)
    {
      CollectStep(selected, i, targetDate, requiredDuration, appointments, isToday, clock);
      allSlots := AppendShiftSlots(allSlots, selected[i], targetDate, requiredDuration, appointments, isToday, clock);
      i := i + 1;
    }
    assert selected[..i] == selected;
    return Offers(SortSlots(allSlots));
  }
}

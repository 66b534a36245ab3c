/**
 * BookingService (booking_api/services.py): the free time of one employee
 * on one date, cut into slots as long as the service.
 *
 * The working intervals (`Employee.get_working_intervals`) are passed in,
 * because that method is not part of this model; the appointments table
 * and the clock are passed in as values.
 */
module Services {
  import opened Wrappers
  import opened Calendar
  import opened Models
  import opened Intervals

  /** The filter of `_get_booked_intervals`: this employee, starting on the day, not cancelled or completed. */
  predicate IsBookedOn(a: Appointment, employeeId: int, day: Date)
    requires IsValidDate(day)
  {
    a.employeeId == Some(employeeId) && OnDate(a.start, day)
    && a.status != Cancelled && a.status != Completed
  }

  /** Whole minutes from the day's midnight to instant `t`, rounded down as `// 60` does. */
  function MinutesInto(t: int, day: Date): int
    requires IsValidDate(day)
  {
    (t - Midnight(day)) / SecondsPerMinute
  }

  function BusyInterval(a: Appointment, day: Date): Interval
    requires IsValidDate(day)
  {
    Interval(MinutesInto(a.start, day), MinutesInto(a.end, day))
  }

  /** The (start_minutes, end_minutes) pairs `_get_booked_intervals` returns, in table order. */
  function BookedOf(appointments: seq<Appointment>, employeeId: int, day: Date): seq<Interval>
    requires IsValidDate(day)
    decreases |appointments|
  {
    if appointments == [] then []
    else
      var n := |appointments| - 1;
      BookedOf(appointments[..n], employeeId, day)
      + (if IsBookedOn(appointments[n], employeeId, day) then [BusyInterval(appointments[n], day)] else [])
  }

  /** The booked intervals are exactly those of the employee's live appointments that start on the day. */
  lemma {:induction false} BookedOfMembers(appointments: seq<Appointment>, employeeId: int, day: Date)
    requires IsValidDate(day)
    ensures forall iv :: iv in BookedOf(appointments, employeeId, day) <==>
      exists a :: a in appointments && IsBookedOn(a, employeeId, day) && iv == BusyInterval(a, day)
    decreases |appointments|
  {
    if appointments != [] {
      var n := |appointments| - 1;
      BookedOfMembers(appointments[..n], employeeId, day);
      assert appointments == appointments[..n] + [appointments[n]];
    }
  }

  /** A booked interval starts inside the day: 0 <= start < 1440. */
  lemma BookedStartsInDay(appointments: seq<Appointment>, employeeId: int, day: Date)
    requires IsValidDate(day)
    ensures forall iv :: iv in BookedOf(appointments, employeeId, day) ==> 0 <= iv.start < MinutesPerDay
  {
    BookedOfMembers(appointments, employeeId, day);
  }

  /** `((minutes_now + d - 1) // d) * d`. */
  function CeilToStep(m: int, d: int): int
    requires d > 0
  {
    ((m + d - 1) / d) * d
  }

  /** The rounding gives the least multiple of d that is not before m. */
  lemma CeilToStepLeast(m: int, d: int)
    requires d > 0
    ensures CeilToStep(m, d) >= m
    ensures CeilToStep(m, d) - m < d
    ensures CeilToStep(m, d) % d == 0
  {
    var x := m + d - 1;
    assert x == d * (x / d) + x % d;
    MultipleMod(x / d, d);
  }

  lemma MultipleMod(q: int, d: int)
    requires d > 0
    ensures (q * d) % d == 0
  {
    var s, r := (q * d) / d, (q * d) % d;
    assert q * d == d * s + r;
    assert d * (q - s) == r;
    if q - s >= 1 {
      assert false;
    } else if q - s <= -1 {
      assert false;
    }
  }

  /** The slot starts the `while` loop produces from `cursor` in a free interval ending at `end`. */
  function Slice(cursor: int, end: int, d: int): seq<int>
    requires d > 0
    decreases end - cursor
  {
    if cursor + d <= end then [cursor] + Slice(cursor + d, end, d) else []
  }

  /**
   * The slots of a free interval are the arithmetic progression cursor,
   * cursor + d, ... of every start whose slot still fits before `end`.
   */
  lemma {:induction false} SliceClosedForm(cursor: int, end: int, d: int)
    requires d > 0
    ensures forall i :: 0 <= i < |Slice(cursor, end, d)| ==> Slice(cursor, end, d)[i] == cursor + i * d
    ensures cursor + |Slice(cursor, end, d)| * d <= end || Slice(cursor, end, d) == []
    ensures end < cursor + (|Slice(cursor, end, d)| + 1) * d
    decreases end - cursor
  {
    var r := Slice(cursor, end, d);
    if cursor + d <= end {
      SliceClosedForm(cursor + d, end, d);
      var r' := Slice(cursor + d, end, d);
      assert r == [cursor] + r';
      forall i | 0 <= i < |r| ensures r[i] == cursor + i * d {
        if i > 0 {
          assert r[i] == r'[i - 1] == cursor + d + (i - 1) * d;
        }
      }
      assert cursor + |r| * d == cursor + d + |r'| * d;
      assert cursor + (|r| + 1) * d == cursor + d + (|r'| + 1) * d;
    }
  }

  /** Every slot start of a free interval leaves room for the whole slot. */
  lemma {:induction false} SliceBounds(cursor: int, end: int, d: int)
    requires d > 0
    ensures forall k :: 0 <= k < |Slice(cursor, end, d)| ==>
      cursor <= Slice(cursor, end, d)[k] && Slice(cursor, end, d)[k] + d <= end
    decreases end - cursor
  {
    if cursor + d <= end {
      SliceBounds(cursor + d, end, d);
    }
  }

  /** Where slicing starts in a free interval: its start, or for today no earlier than the rounded clock. */
  function SliceStart(freeStart: int, isToday: bool, minutesNow: int, d: int): int
    requires d > 0
  {
    if isToday then Max(freeStart, CeilToStep(minutesNow, d)) else freeStart
  }

  /** The slot starts (minutes after midnight) `get_available_slots` collects over the free intervals. */
  function SlotsOf(free: seq<Interval>, d: int, isToday: bool, minutesNow: int): seq<int>
    requires d > 0
    decreases |free|
  {
    if free == [] then []
    else
      var last := free[|free| - 1];
      SlotsOf(free[..|free| - 1], d, isToday, minutesNow)
      + Slice(SliceStart(last.start, isToday, minutesNow, d), last.end, d)
  }

  /**
   * Each slot lies whole inside one free interval, and for today starts no
   * earlier than the rounded-up current minute.
   */
  lemma {:induction false} SlotsOfFit(free: seq<Interval>, d: int, isToday: bool, minutesNow: int)
    requires d > 0
    ensures forall k :: 0 <= k < |SlotsOf(free, d, isToday, minutesNow)| ==>
      (exists i :: 0 <= i < |free| && free[i].start <= SlotsOf(free, d, isToday, minutesNow)[k]
                  && SlotsOf(free, d, isToday, minutesNow)[k] + d <= free[i].end)
      && (isToday ==> SlotsOf(free, d, isToday, minutesNow)[k] >= CeilToStep(minutesNow, d) >= minutesNow)
    decreases |free|
  {
    CeilToStepLeast(minutesNow, d);
    if free != [] {
      var n := |free| - 1;
      var front := SlotsOf(free[..n], d, isToday, minutesNow);
      var cursor := SliceStart(free[n].start, isToday, minutesNow, d);
      var tail := Slice(cursor, free[n].end, d);
      SlotsOfFit(free[..n], d, isToday, minutesNow);
      SliceBounds(cursor, free[n].end, d);
      var out := SlotsOf(free, d, isToday, minutesNow);
      assert out == front + tail;
      forall k | 0 <= k < |out|
        ensures exists i :: 0 <= i < |free| && free[i].start <= out[k] && out[k] + d <= free[i].end
        ensures isToday ==> out[k] >= CeilToStep(minutesNow, d)
      {
        if k < |front| {
          assert out[k] == front[k];
          var i :| 0 <= i < n && free[..n][i].start <= front[k] && front[k] + d <= free[..n][i].end;
          assert free[..n][i] == free[i];
        } else {
          assert out[k] == tail[k - |front|];
          assert free[n].start <= out[k] && out[k] + d <= free[n].end;
        }
      }
    }
  }

  /**
   * The promise of the whole computation: every minute of every offered
   * slot is a working minute that no live appointment of the employee on
   * that day occupies.
   */
  lemma SlotsAreBookable(base: seq<Interval>, booked: seq<Interval>, d: int, isToday: bool, minutesNow: int)
    requires d > 0
    ensures forall k, t ::
      (0 <= k < |SlotsOf(Subtract(base, booked), d, isToday, minutesNow)|
       && SlotsOf(Subtract(base, booked), d, isToday, minutesNow)[k] <= t
       && t < SlotsOf(Subtract(base, booked), d, isToday, minutesNow)[k] + d)
      ==> Covers(base, t) && Free(booked, t)
  {
    var free := Subtract(base, booked);
    var slots := SlotsOf(free, d, isToday, minutesNow);
    SlotsOfFit(free, d, isToday, minutesNow);
    forall k, t | 0 <= k < |slots| && slots[k] <= t < slots[k] + d
      ensures Covers(base, t) && Free(booked, t)
    {
      var i :| 0 <= i < |free| && free[i].start <= slots[k] && slots[k] + d <= free[i].end;
      assert Contains(free[i], t);
      SubtractExact(base, booked, t);
    }
  }

  class BookingService {
    const employee: Employee
    const service: Service
    const bookingDate: Date
    /** The service's total duration, buffer included. */
    const slotDuration: int

    constructor(employee: Employee, service: Service, bookingDate: Date)
      ensures this.employee == employee && this.service == service && this.bookingDate == bookingDate
      ensures slotDuration == service.totalDuration
    {
      this.employee := employee;
      this.service := service;
      this.bookingDate := bookingDate;
      slotDuration := service.totalDuration;
    }

    /** `_get_booked_intervals` over the given table. */
    method BookedIntervals(appointments: seq<Appointment>) returns (booked: seq<Interval>)
      requires IsValidDate(bookingDate)
      ensures booked == BookedOf(appointments, employee.id, bookingDate)
    {
      booked := [];
      var i := 0;
      while i < |appointments|
        invariant 0 <= i <= |appointments|
        invariant booked == BookedOf(appointments[..i], employee.id, bookingDate)
      {
        var appt := appointments[i];
        assert appointments[..i + 1][..i] == appointments[..i];
        if IsBookedOn(appt, employee.id, bookingDate) {
          var startMinutes := (appt.start - Midnight(bookingDate)) / SecondsPerMinute;
          var endMinutes := (appt.end - Midnight(bookingDate)) / SecondsPerMinute;
          booked := booked + [Interval(startMinutes, endMinutes)];
        }
        i := i + 1;
      }
      assert appointments[..i] == appointments;
    }

    /** `_subtract_intervals`: the nested loops of the sweep. */
    static method SubtractIntervals(base: seq<Interval>, busy: seq<Interval>) returns (free: seq<Interval>)
      ensures free == Subtract(base, busy)
    {
      var allBusy := SortIntervals(busy);
      free := [];
      var i := 0;
      while i < |base|
        invariant 0 <= i <= |base|
        invariant free == SubtractSorted(base[..i], allBusy)
      {
        var baseStart, baseEnd := base[i].start, base[i].end;
        var current := baseStart;
        ghost var before := free;
        var j := 0;
        while j < |allBusy|
          invariant 0 <= j <= |allBusy|
          invariant free + Sweep(baseStart, baseEnd, current, allBusy[j..])
                    == before + Sweep(baseStart, baseEnd, baseStart, allBusy)
        {
          if current >= baseEnd {
            break;
          }
          var b := allBusy[j];
          assert allBusy[j..][1..] == allBusy[j + 1..];
          if baseEnd > b.start && baseStart < b.end {
            if current < b.start {
              free := free + [Interval(current, b.start)];
            }
            current := Max(current, b.end);
          }
          j := j + 1;
        }
        if current < baseEnd {
          free := free + [Interval(current, baseEnd)];
        }
        assert base[..i + 1][..i] == base[..i];
        i := i + 1;
      }
      assert base[..i] == base;
    }

    /**
     * `get_available_slots`: the start instants of the bookable slots. The
     * loop over free intervals cannot end when the slot length is not
     * positive, hence the precondition.
     */
    method GetAvailableSlots(base: seq<Interval>, appointments: seq<Appointment>, now: Clock)
      returns (slots: seq<int>)
      requires IsValidDate(bookingDate) && ValidClock(now)
      requires slotDuration > 0
      ensures var minutes := SlotsOf(Subtract(base, BookedOf(appointments, employee.id, bookingDate)),
                                     slotDuration, bookingDate == now.today, now.secondOfDay / SecondsPerMinute);
              |slots| == |minutes|
              && forall k :: 0 <= k < |slots| ==> slots[k] == Midnight(bookingDate) + minutes[k] * SecondsPerMinute
    {
      var booked := BookedIntervals(appointments);
      var free := SubtractIntervals(base, booked);
      var startOfDay := Midnight(bookingDate);
      var isToday := bookingDate == now.today;
      var minutesNow := now.secondOfDay / SecondsPerMinute;
      ghost var minutes: seq<int> := [];
      slots := [];
      var i := 0;
      while i < |free|
        invariant 0 <= i <= |free|
        invariant minutes == SlotsOf(free[..i], slotDuration, isToday, minutesNow)
        invariant |slots| == |minutes|
        invariant forall k :: 0 <= k < |slots| ==> slots[k] == startOfDay + minutes[k] * SecondsPerMinute
      {
        var freeStart, freeEnd := free[i].start, free[i].end;
        var slotStart := freeStart;
        if isToday {
          var nextStart := ((minutesNow + slotDuration - 1) / slotDuration) * slotDuration;
          slotStart := Max(freeStart, nextStart);
        }
        ghost var before := minutes;
        while slotStart + slotDuration <= freeEnd
          invariant minutes + Slice(slotStart, freeEnd, slotDuration)
                    == before + Slice(SliceStart(freeStart, isToday, minutesNow, slotDuration), freeEnd, slotDuration)
          invariant |slots| == |minutes|
          invariant forall k :: 0 <= k < |slots| ==> slots[k] == startOfDay + minutes[k] * SecondsPerMinute
          decreases freeEnd - slotStart
        {
          slots := slots + [startOfDay + slotStart * SecondsPerMinute];
          minutes := minutes + [slotStart];
          slotStart := slotStart + slotDuration;
        }
        assert free[..i + 1][..i] == free[..i];
        i := i + 1;
      }
      assert free[..i] == free;
    }
  }
}

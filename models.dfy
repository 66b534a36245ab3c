/**
 * The records of booking_api/models.py as values, with the constraints the
 * model declares. Fields that other parts of the code read but that
 * models.py does not declare (a service's category, base and total
 * duration, an appointment's address, the client's chat id and the
 * reminder flag) are included as plain fields.
 *
 * Instants (`start`, `end`) are seconds on the local clock (see Calendar).
 */
module Models {
  import opened Wrappers
  import opened Calendar

  /** Appointment.STATUS_CHOICES. */
  datatype Status = Pending | Confirmed | Cancelled | Completed

  /** PENDING and CONFIRMED appointments occupy their time; the other two do not. */
  predicate IsActive(s: Status) {
    s == Pending || s == Confirmed
  }

  datatype Employee = Employee(id: int, organizationId: int, name: string)

  /**
   * A service. `employeeIds` is the many-to-many `employees` relation;
   * `category`, `baseDuration` and `totalDuration` (base plus buffer, in
   * minutes) are read by the views and the slot code.
   */
  datatype Service = Service(
    id: int,
    organizationId: int,
    name: string,
    category: Option<string>,
    durationMinutes: int,
    baseDuration: int,
    totalDuration: int,
    price: int,
    isActive: bool,
    employeeIds: seq<int>)

  datatype Client = Client(id: int, name: string, phoneNumber: string)

  /** An appointment; `employeeId` may be None (on_delete=SET_NULL). */
  datatype Appointment = Appointment(
    id: int,
    organizationId: int,
    clientId: int,
    employeeId: Option<int>,
    serviceId: int,
    start: int,
    end: int,
    status: Status,
    address: string,
    clientChatId: Option<string>,
    reminderSent: bool)

  /** An EmployeeSchedule row joined with its employee (`select_related('employee')`). */
  datatype Schedule = Schedule(employee: Employee, dayOfWeek: int, startMinutes: int, endMinutes: int)

  /** A new appointment as `Appointment.objects.create` stores it when no status is passed. */
  function NewAppointment(id: int, organizationId: int, clientId: int, employeeId: Option<int>,
                          serviceId: int, start: int, end: int): (a: Appointment)
    ensures a.status == Pending && !a.reminderSent
    ensures a.start == start && a.end == end && a.employeeId == employeeId
  {
    Appointment(id, organizationId, clientId, employeeId, serviceId, start, end, Pending, "", None, false)
  }

  /** The validators on EmployeeSchedule: a weekday 0..6 and minute bounds in [0, 1440]. */
  predicate ValidSchedule(s: Schedule) {
    0 <= s.dayOfWeek <= 6
    && 0 <= s.startMinutes <= MinutesPerDay
    && 0 <= s.endMinutes <= MinutesPerDay
  }

  /** unique_together = ('employee', 'day_of_week'). */
  predicate OneSchedulePerDay(schedules: seq<Schedule>) {
    forall i, j :: 0 <= i < |schedules| && 0 <= j < |schedules| && i != j
      && schedules[i].employee.id == schedules[j].employee.id
      ==> schedules[i].dayOfWeek != schedules[j].dayOfWeek
  }

  /** Two records of the same employee; a NULL employee is never the same as another. */
  predicate SameEmployee(a: Appointment, b: Appointment) {
    a.employeeId.Some? && a.employeeId == b.employeeId
  }

  /**
   * UniqueConstraint(fields=['employee', 'start_time']); as in SQL, rows whose
   * employee is NULL never collide.
   */
  predicate UniqueEmployeeStart(appointments: seq<Appointment>) {
    forall i, j :: 0 <= i < |appointments| && 0 <= j < |appointments| && i != j
      && SameEmployee(appointments[i], appointments[j])
      ==> appointments[i].start != appointments[j].start
  }

  /** The half-open overlap test the code uses everywhere: a.start < b.end and a.end > b.start. */
  predicate Overlaps(a: Appointment, b: Appointment) {
    a.start < b.end && a.end > b.start
  }

  /** No employee has two overlapping appointments in the table. */
  predicate NoDoubleBooking(appointments: seq<Appointment>) {
    forall i, j :: 0 <= i < |appointments| && 0 <= j < |appointments| && i != j
      && SameEmployee(appointments[i], appointments[j])
      ==> !Overlaps(appointments[i], appointments[j])
  }

  /** Primary keys are distinct. */
  predicate UniqueIds(appointments: seq<Appointment>) {
    forall i, j :: 0 <= i < |appointments| && 0 <= j < |appointments| && i != j
      ==> appointments[i].id != appointments[j].id
  }

  /**
   * Where every appointment takes time, keeping the calendar free of overlaps
   * also keeps the (employee, start_time) constraint.
   */
  lemma NoDoubleBookingGivesUniqueStarts(appointments: seq<Appointment>)
    requires NoDoubleBooking(appointments)
    requires forall k :: 0 <= k < |appointments| ==> appointments[k].start < appointments[k].end
    ensures UniqueEmployeeStart(appointments)
  {
    forall i, j | 0 <= i < |appointments| && 0 <= j < |appointments| && i != j
      && SameEmployee(appointments[i], appointments[j])
      ensures appointments[i].start != appointments[j].start
    {
      assert !Overlaps(appointments[i], appointments[j]);
    }
  }

  /** Adding one appointment that overlaps none of its employee's keeps the table free of overlaps. */
  lemma {:induction false} AppendKeepsNoDoubleBooking(appointments: seq<Appointment>, a: Appointment)
    requires NoDoubleBooking(appointments)
    requires forall k :: 0 <= k < |appointments| && SameEmployee(appointments[k], a)
               ==> !Overlaps(appointments[k], a)
    ensures NoDoubleBooking(appointments + [a])
  {
    var all := appointments + [a];
    forall i, j | 0 <= i < |all| && 0 <= j < |all| && i != j && SameEmployee(all[i], all[j])
      ensures !Overlaps(all[i], all[j])
    {
      if j == |appointments| {
        assert !Overlaps(appointments[i], a);
      } else if i == |appointments| {
        assert SameEmployee(appointments[j], a);
        assert !Overlaps(appointments[j], a);
      } else {
        assert !Overlaps(appointments[i], appointments[j]);
      }
    }
  }

  /** Replacing one appointment by one that overlaps none of the others keeps the table free of overlaps. */
  lemma {:induction false} ReplaceKeepsNoDoubleBooking(appointments: seq<Appointment>, i: int, a: Appointment)
    requires 0 <= i < |appointments|
    requires NoDoubleBooking(appointments)
    requires forall k :: 0 <= k < |appointments| && k != i && SameEmployee(appointments[k], a)
               ==> !Overlaps(appointments[k], a)
    ensures NoDoubleBooking(appointments[i := a])
  {
    var all := appointments[i := a];
    forall p, q | 0 <= p < |all| && 0 <= q < |all| && p != q && SameEmployee(all[p], all[q])
      ensures !Overlaps(all[p], all[q])
    {
      if q == i {
        assert !Overlaps(appointments[p], a);
      } else if p == i {
        assert SameEmployee(appointments[q], a);
        assert !Overlaps(appointments[q], a);
      } else {
        assert !Overlaps(appointments[p], appointments[q]);
      }
    }
  }
}

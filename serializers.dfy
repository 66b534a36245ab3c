/**
 * AppointmentSerializer (booking_api/serializers.py): the checks `validate`
 * makes before an appointment is written (an employee is chosen, the start
 * is not in the past, no overlapping appointment of that employee) and the
 * record `create` then writes.
 *
 * `validate` adds `end_time` to the data dictionary in place; here it
 * returns the accepted data with the end instant attached. The appointments
 * table and the clients table are sequences of records.
 */
module Serializers {
  import opened Wrappers
  import opened Calendar
  import opened Models

  /** The writable fields: organization, employee (nullable), service, start_time, client name and phone. */
  datatype AppointmentInput = AppointmentInput(
    organizationId: int,
    employee: Option<Employee>,
    service: Service,
    start: int,
    clientName: string,
    clientPhoneNumber: string)

  /** The data `validate` returns: the input and the `end_time` it computed. */
  datatype ValidatedData = ValidatedData(input: AppointmentInput, end: int)

  /** Each ValidationError, by the key it is reported under. */
  datatype ValidationError =
    | EmployeeMissing
    | StartInPast
    | SlotTaken(employeeName: string, conflictStart: int, conflictEnd: int)

  function ErrorKey(e: ValidationError): string {
    match e
    case EmployeeMissing => "employee"
    case StartInPast => "start_time"
    case SlotTaken(_, _, _) => "time_slot"
  }

  datatype Validation = Accepted(data: ValidatedData) | Refused(error: ValidationError)

  /** The conflict query: same employee, start < new end and end > new start, minus the edited instance. */
  predicate IsConflict(a: Appointment, employeeId: int, start: int, end: int, instance: Option<int>) {
    a.employeeId == Some(employeeId) && a.start < end && a.end > start
    && !(instance.Some? && a.id == instance.value)
  }

  function ConflictsOf(appointments: seq<Appointment>, employeeId: int, start: int, end: int,
                       instance: Option<int>): (r: seq<Appointment>)
    ensures forall k :: 0 <= k < |r| ==> r[k] in appointments && IsConflict(r[k], employeeId, start, end, instance)
    ensures forall a :: a in appointments && IsConflict(a, employeeId, start, end, instance) ==> a in r
    decreases |appointments|
  {
    if appointments == [] then []
    else
      var rest := ConflictsOf(appointments[1..], employeeId, start, end, instance);
      if IsConflict(appointments[0], employeeId, start, end, instance) then [appointments[0]] + rest else rest
  }

  /** `.first()` on an unordered queryset: the row with the smallest primary key. */
  function FirstByPk(s: seq<Appointment>): (r: Appointment)
    requires s != []
    ensures r in s
    ensures forall a :: a in s ==> r.id <= a.id
    decreases |s|
  {
    if |s| == 1 then s[0]
    else
      var rest := FirstByPk(s[1..]);
      if s[0].id <= rest.id then s[0] else rest
  }

  /** The end instant `start_time + timedelta(minutes=service.duration_minutes)`. */
  function EndOf(input: AppointmentInput): int {
    input.start + input.service.durationMinutes * SecondsPerMinute
  }

  /** `validate(data)` against the table, at instant `now`, for a create (`instance` None) or an update. */
  function Validate(input: AppointmentInput, appointments: seq<Appointment>, now: int,
                    instance: Option<int>): Validation
  {
    if input.employee.None? then Refused(EmployeeMissing)
    else if input.start < now then Refused(StartInPast)
    else
      var end := EndOf(input);
      var conflicts := ConflictsOf(appointments, input.employee.value.id, input.start, end, instance);
      if conflicts != [] then
        var c := FirstByPk(conflicts);
        Refused(SlotTaken(input.employee.value.name, c.start, c.end))
      else Accepted(ValidatedData(input, end))
  }

  /**
   * What `validate` decides, in each direction: a missing employee, a start
   * before now, and an overlapping appointment of the same employee (of any
   * status, the edited instance excepted) are the only ways to fail, and
   * acceptance attaches the end computed from duration_minutes.
   */
  lemma ValidateOutcome(input: AppointmentInput, appointments: seq<Appointment>, now: int, instance: Option<int>)
    ensures var r := Validate(input, appointments, now, instance);
      && (r == Refused(EmployeeMissing) <==> input.employee.None?)
      && (r == Refused(StartInPast) <==> input.employee.Some? && input.start < now)
      && (r.Refused? && r.error.SlotTaken? <==>
            input.employee.Some? && input.start >= now
            && exists a :: a in appointments
                 && IsConflict(a, input.employee.value.id, input.start, EndOf(input), instance))
      && (r.Accepted? ==> r.data.input == input && r.data.end == input.start + input.service.durationMinutes * 60)
  {
    var r := Validate(input, appointments, now, instance);
    if input.employee.Some? && input.start >= now {
      var conflicts := ConflictsOf(appointments, input.employee.value.id, input.start, EndOf(input), instance);
      if conflicts != [] {
        assert conflicts[0] in appointments;
      }
    }
  }

  /** The error reports the start and end of an existing conflicting appointment, the one with the smallest key. */
  lemma SlotTakenReportsConflict(input: AppointmentInput, appointments: seq<Appointment>, now: int, instance: Option<int>)
    requires Validate(input, appointments, now, instance).Refused?
    requires Validate(input, appointments, now, instance).error.SlotTaken?
    ensures var e := Validate(input, appointments, now, instance).error;
      && input.employee.Some? && e.employeeName == input.employee.value.name
      && exists c :: c in appointments && IsConflict(c, input.employee.value.id, input.start, EndOf(input), instance)
           && c.start == e.conflictStart && c.end == e.conflictEnd
           && forall a :: a in appointments && IsConflict(a, input.employee.value.id, input.start, EndOf(input), instance)
                ==> c.id <= a.id
  {
    var conflicts := ConflictsOf(appointments, input.employee.value.id, input.start, EndOf(input), instance);
    var c := FirstByPk(conflicts);
    assert c in appointments;
  }

  /** Appointments that only touch the new one (end == start, or start == end) never conflict. */
  lemma TouchingDoesNotConflict(a: Appointment, employeeId: int, start: int, end: int, instance: Option<int>)
    requires a.end == start || a.start == end
    ensures !IsConflict(a, employeeId, start, end, instance)
  {
  }

  /** On an update, the edited appointment is never its own conflict. */
  lemma InstanceNeverConflicts(appointments: seq<Appointment>, employeeId: int, start: int, end: int, id: int)
    ensures forall a :: a in ConflictsOf(appointments, employeeId, start, end, Some(id)) ==> a.id != id
  {
  }

  /** The appointment a successful create writes for accepted data. */
  function NewRecord(v: ValidatedData, clientId: int, id: int): Appointment
    requires v.input.employee.Some?
  {
    NewAppointment(id, v.input.organizationId, clientId, Some(v.input.employee.value.id), v.input.service.id,
                   v.input.start, v.end)
  }

  /**
   * Accepting a new booking keeps the table free of double bookings: the
   * record written overlaps no appointment of its employee.
   */
  lemma AcceptKeepsNoDoubleBooking(input: AppointmentInput, appointments: seq<Appointment>, now: int,
                                   clientId: int, id: int)
    requires NoDoubleBooking(appointments)
    requires Validate(input, appointments, now, None).Accepted?
    ensures NoDoubleBooking(appointments + [NewRecord(Validate(input, appointments, now, None).data, clientId, id)])
  {
    var v := Validate(input, appointments, now, None).data;
    var a := NewRecord(v, clientId, id);
    forall k | 0 <= k < |appointments| && SameEmployee(appointments[k], a)
      ensures !Overlaps(appointments[k], a)
    {
      assert appointments[k] !in ConflictsOf(appointments, input.employee.value.id, input.start, v.end, None);
    }
    AppendKeepsNoDoubleBooking(appointments, a);
  }

  /**
   * Accepting an update of appointment `i` (its own key excluded from the
   * check) keeps the table free of double bookings when it is rewritten with
   * the new employee, start and end.
   */
  lemma AcceptUpdateKeepsNoDoubleBooking(input: AppointmentInput, appointments: seq<Appointment>, now: int, i: int)
    requires 0 <= i < |appointments|
    requires NoDoubleBooking(appointments) && UniqueIds(appointments)
    requires Validate(input, appointments, now, Some(appointments[i].id)).Accepted?
    ensures var v := Validate(input, appointments, now, Some(appointments[i].id)).data;
      NoDoubleBooking(appointments[i := appointments[i].(employeeId := Some(input.employee.value.id),
                                                         start := input.start, end := v.end)])
  {
    var v := Validate(input, appointments, now, Some(appointments[i].id)).data;
    var a := appointments[i].(employeeId := Some(input.employee.value.id), start := input.start, end := v.end);
    forall k | 0 <= k < |appointments| && k != i && SameEmployee(appointments[k], a)
      ensures !Overlaps(appointments[k], a)
    {
      assert appointments[k].id != appointments[i].id;
      assert appointments[k] !in ConflictsOf(appointments, input.employee.value.id, input.start, v.end,
                                             Some(appointments[i].id));
    }
    ReplaceKeepsNoDoubleBooking(appointments, i, a);
  }

  // ----- create -----

  /** The index of the client with this phone number, if any. */
  function FindClient(clients: seq<Client>, phone: string): (r: Option<nat>)
    ensures r.Some? ==> r.value < |clients| && clients[r.value].phoneNumber == phone
    ensures r.None? ==> forall k :: 0 <= k < |clients| ==> clients[k].phoneNumber != phone
    decreases |clients|
  {
    if clients == [] then None
    else if clients[|clients| - 1].phoneNumber == phone then Some(|clients| - 1)
    else FindClient(clients[..|clients| - 1], phone)
  }

  /** `Client.objects.get_or_create(phone_number=phone, defaults={'name': name})`. */
  function GetOrCreateClient(clients: seq<Client>, phone: string, name: string, freshId: int)
    : (r: (Client, seq<Client>, bool))
    ensures r.0.phoneNumber == phone
  {
    match FindClient(clients, phone)
    case Some(k) => (clients[k], clients, false)
    case None => (Client(freshId, name, phone), clients + [Client(freshId, name, phone)], true)
  }

  predicate UniquePhones(clients: seq<Client>) {
    forall i, j :: 0 <= i < |clients| && 0 <= j < |clients| && i != j
      ==> clients[i].phoneNumber != clients[j].phoneNumber
  }

  /**
   * get_or_create returns the one client with that phone, leaving the table
   * alone, or appends a new client with the given name; phone numbers stay
   * unique.
   */
  lemma GetOrCreateClientFacts(clients: seq<Client>, phone: string, name: string, freshId: int)
    requires UniquePhones(clients)
    ensures var (c, after, created) := GetOrCreateClient(clients, phone, name, freshId);
      && c in after && UniquePhones(after)
      && (!created ==> after == clients && c in clients)
      && (created ==> after == clients + [c] && c.name == name && c.id == freshId
                      && forall k :: 0 <= k < |clients| ==> clients[k].phoneNumber != phone)
  {
  }

  datatype CreateOutcome =
    | Created(clients: seq<Client>, appointments: seq<Appointment>, appointment: Appointment)
    | IntegrityError(clients: seq<Client>)

  /**
   * `create(validated_data)`: the client name and phone leave the data, the
   * client found or created by phone is attached, and the appointment is
   * inserted; the (employee, start_time) constraint can still refuse it.
   */
  function Create(v: ValidatedData, clients: seq<Client>, appointments: seq<Appointment>,
                  freshClientId: int, freshAppointmentId: int): CreateOutcome
    requires v.input.employee.Some?
  {
    var (client, clientsAfter, _) := GetOrCreateClient(clients, v.input.clientPhoneNumber, v.input.clientName, freshClientId);
    var a := NewRecord(v, client.id, freshAppointmentId);
    if exists k :: 0 <= k < |appointments| && SameEmployee(appointments[k], a) && appointments[k].start == a.start
    then IntegrityError(clientsAfter)
    else Created(clientsAfter, appointments + [a], a)
  }

  /**
   * What a successful create writes: a PENDING appointment of the client
   * with that phone number, with the validated employee, start and end.
   */
  lemma CreateFacts(v: ValidatedData, clients: seq<Client>, appointments: seq<Appointment>,
                    freshClientId: int, freshAppointmentId: int)
    requires v.input.employee.Some?
    requires Create(v, clients, appointments, freshClientId, freshAppointmentId).Created?
    ensures var r := Create(v, clients, appointments, freshClientId, freshAppointmentId);
      && r.appointments == appointments + [r.appointment]
      && r.appointment.status == Pending
      && r.appointment.employeeId == Some(v.input.employee.value.id)
      && r.appointment.start == v.input.start && r.appointment.end == v.end
      && exists c :: c in r.clients && c.id == r.appointment.clientId && c.phoneNumber == v.input.clientPhoneNumber
  {
    var (client, clientsAfter, _) := GetOrCreateClient(clients, v.input.clientPhoneNumber, v.input.clientName, freshClientId);
    assert client in clientsAfter;
  }

  /**
   * When every stored appointment has positive length and the service does
   * too, data the validation accepted never trips the (employee, start_time)
   * constraint.
   */
  lemma AcceptedCreateSucceeds(input: AppointmentInput, appointments: seq<Appointment>, now: int,
                               clients: seq<Client>, freshClientId: int, freshAppointmentId: int)
    requires forall k :: 0 <= k < |appointments| ==> appointments[k].start < appointments[k].end
    requires input.service.durationMinutes > 0
    requires Validate(input, appointments, now, None).Accepted?
    ensures Create(Validate(input, appointments, now, None).data, clients, appointments,
                   freshClientId, freshAppointmentId).Created?
  {
    var v := Validate(input, appointments, now, None).data;
    var (client, clientsAfter, _) := GetOrCreateClient(clients, input.clientPhoneNumber, input.clientName, freshClientId);
    var a := NewRecord(v, client.id, freshAppointmentId);
    forall k | 0 <= k < |appointments| && SameEmployee(appointments[k], a)
      ensures appointments[k].start != a.start
    {
      assert appointments[k] !in ConflictsOf(appointments, input.employee.value.id, input.start, v.end, None);
    }
  }
}

/**
 * The request handlers of booking_api/views.py: the employee list filter,
 * the Telegram service catalog, the available-slots endpoint, the Telegram
 * booking endpoint and the seven-day analytics report.
 *
 * Query parameters and request bodies are maps from names to strings (a
 * JSON number is taken as its decimal text); tables are sequences of
 * records; a response is its status code and the data it carries.
 */
module Views {
  import opened Wrappers
  import opened Text
  import opened Calendar
  import opened Models
  import opened Serializers
  import opened SlotCalculator

  type Params = map<string, string>

  /** `params.get(key)`. */
  function Get(params: Params, key: string): Option<string> {
    if key in params then Some(params[key]) else None
  }

  /** Python truthiness of a parameter: present and not the empty string. */
  predicate Given(p: Option<string>) {
    p.Some? && p.value != ""
  }

  // ----- EmployeeViewSet.get_queryset -----

  /** The employee is linked to a service with that id (`services__id=svc_id`). */
  predicate ServesService(e: Employee, services: seq<Service>, serviceId: int) {
    exists s :: s in services && s.id == serviceId && e.id in s.employeeIds
  }

  /** The employees of an organization, optionally only those linked to one service. */
  function FilterEmployees(employees: seq<Employee>, organizationId: int, serviceId: Option<int>,
                           services: seq<Service>): (r: seq<Employee>)
    ensures forall e :: e in r <==>
      e in employees && e.organizationId == organizationId
      && (serviceId.Some? ==> ServesService(e, services, serviceId.value))
    decreases |employees|
  {
    if employees == [] then []
    else
      var prev := FilterEmployees(employees[..|employees| - 1], organizationId, serviceId, services);
      var e := employees[|employees| - 1];
      assert employees == employees[..|employees| - 1] + [e];
      if e.organizationId == organizationId && (serviceId.Some? ==> ServesService(e, services, serviceId.value))
      then prev + [e] else prev
  }

  /** `get_queryset()` on the employee list. */
  function EmployeeQueryset(params: Params, employees: seq<Employee>, services: seq<Service>): seq<Employee> {
    var org := Get(params, "organization_id");
    var svc := Get(params, "service_id");
    if !Given(org) then []
    else
      match ParseInt(org.value)
      case None => []
      case Some(o) =>
        if !Given(svc) then FilterEmployees(employees, o, None, services)
        else
          match ParseInt(svc.value)
          case None => []
          case Some(v) => FilterEmployees(employees, o, Some(v), services)
  }

  /**
   * The list is empty when organization_id is missing, empty or not an
   * integer, or when service_id is given but not an integer.
   */
  lemma EmployeeQuerysetEmpty(params: Params, employees: seq<Employee>, services: seq<Service>)
    requires var org := Get(params, "organization_id"); var svc := Get(params, "service_id");
      !Given(org) || ParseInt(org.value).None? || (Given(svc) && ParseInt(svc.value).None?)
    ensures EmployeeQueryset(params, employees, services) == []
  {
  }

  /**
   * Otherwise it holds exactly the employees of that organization, and only
   * those linked to the service when service_id is given.
   */
  lemma EmployeeQuerysetMembers(params: Params, employees: seq<Employee>, services: seq<Service>, e: Employee)
    requires Given(Get(params, "organization_id")) && ParseInt(Get(params, "organization_id").value).Some?
    requires Given(Get(params, "service_id")) ==> ParseInt(Get(params, "service_id").value).Some?
    ensures e in EmployeeQueryset(params, employees, services) <==>
      e in employees && e.organizationId == ParseInt(Get(params, "organization_id").value).value
      && (Given(Get(params, "service_id")) ==>
            ServesService(e, services, ParseInt(Get(params, "service_id").value).value))
  {
  }

  // ----- ServiceViewSet.telegram_catalog -----

  const NoCategory: string := "Без категории"

  /** The `service_data` dictionary of one service (the float price is not modelled). */
  datatype ServiceEntry = ServiceEntry(
    id: int,
    name: string,
    category: string,
    durationMinutes: int,
    totalTimeMinutes: int,
    employeeIds: seq<int>)

  /** The bucket a service goes to: its category, or 'Без категории' when that is None or empty. */
  function CategoryKey(s: Service): string {
    if s.category.Some? && s.category.value != "" then s.category.value else NoCategory
  }

  function EntryOf(s: Service): ServiceEntry {
    ServiceEntry(s.id, s.name, CategoryKey(s), s.baseDuration, s.totalDuration, s.employeeIds)
  }

  /** The categories in the order they first occur: the key order of `categorized_data`. */
  function CategoryOrder(services: seq<Service>): seq<string>
    decreases |services|
  {
    if services == [] then []
    else
      var prev := CategoryOrder(services[..|services| - 1]);
      var c := CategoryKey(services[|services| - 1]);
      if c in prev then prev else prev + [c]
  }

  /** The entries of the services of one category, in the order of the services. */
  function BucketOf(services: seq<Service>, c: string): seq<ServiceEntry>
    decreases |services|
  {
    if services == [] then []
    else
      var last := services[|services| - 1];
      BucketOf(services[..|services| - 1], c) + (if CategoryKey(last) == c then [EntryOf(last)] else [])
  }

  /** `categorized_data` as a map. */
  function Buckets(services: seq<Service>): map<string, seq<ServiceEntry>> {
    map c | c in CategoryOrder(services) :: BucketOf(services, c)
  }

  predicate NoDuplicates(s: seq<string>) {
    forall i, j :: 0 <= i < |s| && 0 <= j < |s| && i != j ==> s[i] != s[j]
  }

  /** The category keys are exactly the categories of the services, each once. */
  lemma {:induction false} CategoryOrderFacts(services: seq<Service>)
    ensures NoDuplicates(CategoryOrder(services))
    ensures forall c :: c in CategoryOrder(services) <==>
      exists k :: 0 <= k < |services| && CategoryKey(services[k]) == c
    decreases |services|
  {
    if services != [] {
      var n := |services| - 1;
      CategoryOrderFacts(services[..n]);
      forall c ensures c in CategoryOrder(services) <==>
        exists k :: 0 <= k < |services| && CategoryKey(services[k]) == c
      {
        if c in CategoryOrder(services) {
          if c in CategoryOrder(services[..n]) {
            var k :| 0 <= k < n && CategoryKey(services[..n][k]) == c;
            assert services[k] == services[..n][k];
          } else {
            assert CategoryKey(services[n]) == c;
          }
        }
        if exists k :: 0 <= k < |services| && CategoryKey(services[k]) == c {
          var k :| 0 <= k < |services| && CategoryKey(services[k]) == c;
          if k < n {
            assert services[..n][k] == services[k];
          }
        }
      }
    }
  }

  /** Grouping keeps order: the bucket of a concatenation is the concatenation of the buckets. */
  lemma {:induction false} BucketOfConcat(a: seq<Service>, b: seq<Service>, c: string)
    ensures BucketOf(a + b, c) == BucketOf(a, c) + BucketOf(b, c)
    decreases |b|
  {
    if b == [] {
      assert a + b == a;
    } else {
      var n := |b| - 1;
      assert (a + b)[..|a + b| - 1] == a + b[..n];
      BucketOfConcat(a, b[..n], c);
    }
  }

  /**
   * Each bucket holds exactly the entries of the services of its category,
   * and every entry in it carries that category.
   */
  lemma {:induction false} BucketOfMembers(services: seq<Service>, c: string)
    ensures forall e :: e in BucketOf(services, c) ==>
      e.category == c && exists k :: 0 <= k < |services| && EntryOf(services[k]) == e
    ensures forall k :: 0 <= k < |services| && CategoryKey(services[k]) == c ==> EntryOf(services[k]) in BucketOf(services, c)
    decreases |services|
  {
    if services != [] {
      var n := |services| - 1;
      BucketOfMembers(services[..n], c);
      forall e | e in BucketOf(services, c)
        ensures e.category == c && exists k :: 0 <= k < |services| && EntryOf(services[k]) == e
      {
        if e in BucketOf(services[..n], c) {
          var k :| 0 <= k < n && EntryOf(services[..n][k]) == e;
          assert services[k] == services[..n][k];
        } else {
          assert e == EntryOf(services[n]);
        }
      }
      forall k | 0 <= k < |services| && CategoryKey(services[k]) == c
        ensures EntryOf(services[k]) in BucketOf(services, c)
      {
        if k < n {
          assert services[..n][k] == services[k];
        }
      }
    }
  }

  /**
   * Every service of the query lands in exactly one bucket: the one of its
   * own category, or 'Без категории'.
   */
  lemma CatalogEachServiceOnce(services: seq<Service>, k: int)
    requires 0 <= k < |services|
    ensures CategoryKey(services[k]) in Buckets(services)
    ensures EntryOf(services[k]) in Buckets(services)[CategoryKey(services[k])]
    ensures forall c :: c in Buckets(services) && c != CategoryKey(services[k]) ==>
      EntryOf(services[k]) !in Buckets(services)[c]
    ensures services[k].category.None? || services[k].category == Some("") ==>
      EntryOf(services[k]) in Buckets(services)[NoCategory]
  {
    CategoryOrderFacts(services);
    BucketOfMembers(services, CategoryKey(services[k]));
    forall c | c in Buckets(services) && c != CategoryKey(services[k])
      ensures EntryOf(services[k]) !in Buckets(services)[c]
    {
      BucketOfMembers(services, c);
    }
  }

  /** A category that no service has has an empty bucket. */
  lemma {:induction false} BucketOfAbsent(services: seq<Service>, c: string)
    requires forall k :: 0 <= k < |services| ==> CategoryKey(services[k]) != c
    ensures BucketOf(services, c) == []
    decreases |services|
  {
    if services != [] {
      var n := |services| - 1;
      forall k | 0 <= k < n
        ensures CategoryKey(services[..n][k]) != c
      {
        assert services[..n][k] == services[k];
      }
      BucketOfAbsent(services[..n], c);
    }
  }

  /** One step of the grouping loop: the key list and the map after one more service. */
  lemma GroupStep(services: seq<Service>, s: Service)
    ensures var key := CategoryKey(s);
      && (key in Buckets(services) <==> key in CategoryOrder(services))
      && CategoryOrder(services + [s]) ==
           (if key in CategoryOrder(services) then CategoryOrder(services) else CategoryOrder(services) + [key])
      && Buckets(services + [s]) ==
           Buckets(services)[key := (if key in Buckets(services) then Buckets(services)[key] else []) + [EntryOf(s)]]
  {
    var all := services + [s];
    var key := CategoryKey(s);
    assert all[..|all| - 1] == services;
    var prev := if key in Buckets(services) then Buckets(services)[key] else [];
    if key !in CategoryOrder(services) {
      CategoryOrderFacts(services);
      BucketOfAbsent(services, key);
    }
    var m1 := Buckets(all);
    var m2 := Buckets(services)[key := prev + [EntryOf(s)]];
    forall c ensures c in m1 <==> c in m2 {
    }
    forall c | c in m1
      ensures m1[c] == m2[c]
    {
      assert BucketOf(all, c) == BucketOf(services, c) + (if key == c then [EntryOf(s)] else []);
    }
    assert m1 == m2;
  }

  /** The loop of `telegram_catalog` that builds `categorized_data`, keys in insertion order. */
  method GroupByCategory(services: seq<Service>) returns (keys: seq<string>, buckets: map<string, seq<ServiceEntry>>)
    ensures keys == CategoryOrder(services)
    ensures buckets == Buckets(services)
  {
    keys := [];
    buckets := map[];
    var i := 0;
    while i < |services|
      invariant 0 <= i <= |services|
      invariant keys == CategoryOrder(services[..i])
      invariant buckets == Buckets(services[..i])
    {
      var service := services[i];
      var serviceData := EntryOf(service);
      var category := CategoryKey(service);
      ghost var before := buckets;
      GroupStep(services[..i], service);
      assert services[..i + 1] == services[..i] + [service];
      if category !in buckets {
        keys := keys + [category];
        buckets := buckets[category := []];
      }
      ghost var prev := if category in before then before[category] else [];
      assert buckets[category] == prev;
      buckets := buckets[category := buckets[category] + [serviceData]];
      MapReplace(before, buckets, category, prev + [serviceData]);
      i := i + 1;
    }
    assert services[..i] == services;
  }

  /** A map that differs from `m` only at `k`, where it holds `v`, is `m[k := v]`. */
  lemma MapReplace<K, V>(m: map<K, V>, m': map<K, V>, k: K, v: V)
    requires k in m' && m'[k] == v
    requires forall j :: j in m' <==> j in m || j == k
    requires forall j :: j in m && j != k ==> m'[j] == m[j]
    ensures m' == m[k := v]
  {
  }

  datatype CatalogResponse =
    | CatalogBadRequest
    | CatalogServerError
    | Catalog(categories: seq<string>, buckets: map<string, seq<ServiceEntry>>)

  function ActiveServices(services: seq<Service>): seq<Service>
    decreases |services|
  {
    if services == [] then []
    else
      var last := services[|services| - 1];
      ActiveServices(services[..|services| - 1]) + (if last.isActive then [last] else [])
  }

  function ServicesOf(services: seq<Service>, organizationId: int): seq<Service>
    decreases |services|
  {
    if services == [] then []
    else
      var last := services[|services| - 1];
      ServicesOf(services[..|services| - 1], organizationId) + (if last.organizationId == organizationId then [last] else [])
  }

  lemma {:induction false} ServicesOfActiveMembers(services: seq<Service>, organizationId: int)
    ensures forall s :: s in ServicesOf(ActiveServices(services), organizationId) <==>
      s in services && s.isActive && s.organizationId == organizationId
    decreases |services|
  {
    if services != [] {
      var n := |services| - 1;
      var init, last := services[..n], services[n];
      var tail := if last.isActive then [last] else [];
      ServicesOfActiveMembers(init, organizationId);
      assert services == init + [last];
      assert ActiveServices(services) == ActiveServices(init) + tail;
      ServicesOfConcat(ActiveServices(init), tail, organizationId);
      ServicesOfOne(tail, organizationId);
      forall s
        ensures s in ServicesOf(ActiveServices(services), organizationId) <==>
          s in services && s.isActive && s.organizationId == organizationId
      {
        assert s in services <==> s in init || s == last;
      }
    }
  }

  lemma ServicesOfOne(tail: seq<Service>, organizationId: int)
    requires |tail| <= 1
    ensures forall s :: s in ServicesOf(tail, organizationId) <==> s in tail && s.organizationId == organizationId
  {
    if |tail| == 1 {
      assert tail[..0] == [];
    }
  }

  lemma {:induction false} ServicesOfConcat(a: seq<Service>, b: seq<Service>, organizationId: int)
    ensures ServicesOf(a + b, organizationId) == ServicesOf(a, organizationId) + ServicesOf(b, organizationId)
    decreases |b|
  {
    if b == [] {
      assert a + b == a;
    } else {
      var n := |b| - 1;
      assert (a + b)[..|a + b| - 1] == a + b[..n];
      ServicesOfConcat(a, b[..n], organizationId);
    }
  }

  /**
   * `self.get_queryset().filter(organization_id=org_id)` as written:
   * get_queryset reads the `organization_id` parameter (none() without it),
   * then the result is narrowed by `org_id`. A lookup value that is not an
   * integer makes the ORM raise (None). The `order_by` is the database's:
   * the result keeps the order of `services`.
   */
  function CatalogQuery(params: Params, services: seq<Service>): Option<seq<Service>>
    requires Given(Get(params, "org_id"))
  {
    var p := Get(params, "organization_id");
    var scoped: Option<seq<Service>> :=
      if !Given(p) then Some([])
      else
        match ParseInt(p.value)
        case None => None
        case Some(o) => Some(ServicesOf(ActiveServices(services), o));
    match scoped
    case None => None
    case Some(q) =>
      match ParseInt(Get(params, "org_id").value)
      case None => None
      case Some(o) => Some(ServicesOf(q, o))
  }

  /** The query the endpoint evidently means: the active services of the organization `org_id` names. */
  function FixedCatalogQuery(params: Params, services: seq<Service>): Option<seq<Service>>
    requires Given(Get(params, "org_id"))
  {
    match ParseInt(Get(params, "org_id").value)
    case None => None
    case Some(o) => Some(ServicesOf(ActiveServices(services), o))
  }

  /** The response `telegram_catalog` gives for a query result. */
  function CatalogOf(q: Option<seq<Service>>): CatalogResponse {
    match q
    case None => CatalogServerError
    case Some(s) => Catalog(CategoryOrder(s), Buckets(s))
  }

  method RespondCatalog(q: Option<seq<Service>>) returns (r: CatalogResponse)
    ensures r == CatalogOf(q)
  {
    if q.None? {
      return CatalogServerError;
    }
    var keys, buckets := GroupByCategory(q.value);
    r := Catalog(keys, buckets);
  }

  /** `telegram_catalog` as written. */
  method TelegramCatalog(params: Params, services: seq<Service>) returns (r: CatalogResponse)
    ensures !Given(Get(params, "org_id")) ==> r == CatalogBadRequest
    ensures Given(Get(params, "org_id")) ==> r == CatalogOf(CatalogQuery(params, services))
  {
    if !Given(Get(params, "org_id")) {
      return CatalogBadRequest;
    }
    r := RespondCatalog(CatalogQuery(params, services));
  }

  /** `telegram_catalog` with the query it evidently means. */
  method FixedTelegramCatalog(params: Params, services: seq<Service>) returns (r: CatalogResponse)
    ensures !Given(Get(params, "org_id")) ==> r == CatalogBadRequest
    ensures Given(Get(params, "org_id")) ==> r == CatalogOf(FixedCatalogQuery(params, services))
  {
    if !Given(Get(params, "org_id")) {
      return CatalogBadRequest;
    }
    r := RespondCatalog(FixedCatalogQuery(params, services));
  }

  /**
   * As written, a request carrying only `org_id` (the parameter the
   * endpoint documents) gets an empty catalog whatever the services.
   */
  lemma CatalogAsWrittenIsEmpty(services: seq<Service>)
    ensures CatalogOf(CatalogQuery(map["org_id" := "1"], services)) == Catalog([], map[])
  {
    ParseIntOfIntToString(1);
    assert IntToString(1) == "1";
    var params := map["org_id" := "1"];
    assert Get(params, "organization_id") == None;
    assert Buckets([]) == map[];
  }

  /**
   * With the query corrected, every active service of the organization
   * `org_id` names is listed in the bucket of its category, and nothing
   * else is listed.
   */
  lemma FixedCatalogListsOrganization(services: seq<Service>, organizationId: int, s: Service)
    ensures var r := CatalogOf(FixedCatalogQuery(map["org_id" := IntToString(organizationId)], services));
      && r.Catalog?
      && (s in services && s.isActive && s.organizationId == organizationId ==>
            CategoryKey(s) in r.buckets && EntryOf(s) in r.buckets[CategoryKey(s)])
      && (forall c, e :: c in r.buckets && e in r.buckets[c] ==>
            exists t :: t in services && t.isActive && t.organizationId == organizationId && EntryOf(t) == e)
  {
    ParseIntOfIntToString(organizationId);
    var params := map["org_id" := IntToString(organizationId)];
    assert Get(params, "org_id") == Some(IntToString(organizationId));
    var q := ServicesOf(ActiveServices(services), organizationId);
    ServicesOfActiveMembers(services, organizationId);
    if s in services && s.isActive && s.organizationId == organizationId {
      var k :| 0 <= k < |q| && q[k] == s;
      CatalogEachServiceOnce(q, k);
    }
    forall c, e | c in Buckets(q) && e in Buckets(q)[c]
      ensures exists t :: t in services && t.isActive && t.organizationId == organizationId && EntryOf(t) == e
    {
      BucketOfMembers(q, c);
      var k :| 0 <= k < |q| && EntryOf(q[k]) == e;
      assert q[k] in q;
    }
  }

  // ----- AppointmentViewSet.list_available_slots -----

  /** The parameters of the endpoint after the presence check and the int() conversions. */
  datatype SlotsRequest =
    | MissingParams
    | NotANumber
    | SlotsQuery(organizationId: int, serviceId: int, date: string, employeeId: Option<int>)

  function ReadSlotsRequest(params: Params): SlotsRequest {
    var org := Get(params, "org_id");
    var svc := Get(params, "service_id");
    var date := Get(params, "date");
    var emp := Get(params, "employee_id");
    if !(Given(org) && Given(svc) && Given(date)) then MissingParams
    else
      var o := ParseInt(org.value);
      var s := ParseInt(svc.value);
      var e := if Given(emp) then ParseInt(emp.value) else None;
      if o.None? || s.None? || (Given(emp) && e.None?) then NotANumber
      else SlotsQuery(o.value, s.value, date.value, if Given(emp) then e else None)
  }

  /** A status code and, when the slot calculator ran, what it returned. */
  datatype SlotsResponse = SlotsResponse(status: int, result: Option<SlotsResult>)

  /**
   * `list_available_slots` as written: the calculator's `(dict, code)`
   * error is not a dict, so it is sent with status 200. An id that is not
   * an integer raises out of the view (500).
   */
  function ListAvailableSlots(params: Params, services: seq<Service>, schedules: seq<Schedule>,
                              appointments: seq<Appointment>, clock: Clock): SlotsResponse
    requires ValidClock(clock)
  {
    match ReadSlotsRequest(params)
    case MissingParams => SlotsResponse(400, None)
    case NotANumber => SlotsResponse(500, None)
    case SlotsQuery(o, s, date, e) =>
      SlotsResponse(200, Some(CalculateSlots(o, s, date, e, services, schedules, appointments, clock)))
  }

  /** `list_available_slots` sending each calculator error with its own code. */
  function FixedListAvailableSlots(params: Params, services: seq<Service>, schedules: seq<Schedule>,
                                   appointments: seq<Appointment>, clock: Clock): SlotsResponse
    requires ValidClock(clock)
  {
    match ReadSlotsRequest(params)
    case MissingParams => SlotsResponse(400, None)
    case NotANumber => SlotsResponse(500, None)
    case SlotsQuery(o, s, date, e) =>
      var r := CalculateSlots(o, s, date, e, services, schedules, appointments, clock);
      SlotsResponse(if r.Rejected? then r.code else 200, Some(r))
  }

  /** A missing or empty org_id, service_id or date gives 400 before anything is computed. */
  lemma MissingSlotParamsRejected(params: Params, services: seq<Service>, schedules: seq<Schedule>,
                                  appointments: seq<Appointment>, clock: Clock)
    requires ValidClock(clock)
    ensures var r := ListAvailableSlots(params, services, schedules, appointments, clock);
      (r == SlotsResponse(400, None)) <==>
        !(Given(Get(params, "org_id")) && Given(Get(params, "service_id")) && Given(Get(params, "date")))
  {
  }

  /** As written, every calculator error reaches the client with status 200. */
  lemma SlotErrorsSentAsSuccess(params: Params, services: seq<Service>, schedules: seq<Schedule>,
                                appointments: seq<Appointment>, clock: Clock)
    requires ValidClock(clock)
    requires ReadSlotsRequest(params).SlotsQuery?
    ensures var r := ListAvailableSlots(params, services, schedules, appointments, clock);
      r.status == 200 && r.result.Some?
  {
  }

  /** A concrete request: an unreadable date is answered 200 although the calculator refused it with 400. */
  lemma BadDateAnsweredWith200(services: seq<Service>, schedules: seq<Schedule>,
                               appointments: seq<Appointment>, clock: Clock)
    requires ValidClock(clock)
    ensures var params := map["org_id" := "1", "service_id" := "1", "date" := "tomorrow"];
      ListAvailableSlots(params, services, schedules, appointments, clock)
        == SlotsResponse(200, Some(Rejected(BadDateFormat, 400)))
  {
    var params := map["org_id" := "1", "service_id" := "1", "date" := "tomorrow"];
    ReadTomorrowRequest(params);
    SplitNoSep("tomorrow", '-');
    assert ParseDate("tomorrow") == None;
    CalculateSlotsRejects(1, 1, "tomorrow", None, services, schedules, appointments, clock);
  }

  lemma ReadTomorrowRequest(params: Params)
    requires params == map["org_id" := "1", "service_id" := "1", "date" := "tomorrow"]
    ensures ReadSlotsRequest(params) == SlotsQuery(1, 1, "tomorrow", None)
  {
    ParseIntOfIntToString(1);
    assert IntToString(1) == "1";
    assert Get(params, "employee_id") == None;
  }

  /**
   * Corrected, the status is 200 exactly when slots are returned; a bad or
   * past date answers 400 and an unknown service 404.
   */
  lemma FixedSlotsStatus(params: Params, services: seq<Service>, schedules: seq<Schedule>,
                         appointments: seq<Appointment>, clock: Clock)
    requires ValidClock(clock)
    ensures var r := FixedListAvailableSlots(params, services, schedules, appointments, clock);
      && (r.result.Some? ==> (r.status == 200 <==> r.result.value.Offers?))
      && (r.result.Some? && r.result.value.Rejected? ==>
            r.status == ErrorCode(r.result.value.error) && (r.status == 400 || r.status == 404))
      && (r.result.None? <==> !ReadSlotsRequest(params).SlotsQuery?)
  {
    var r := FixedListAvailableSlots(params, services, schedules, appointments, clock);
    match ReadSlotsRequest(params)
    case MissingParams =>
    case NotANumber =>
    case SlotsQuery(o, s, date, e) =>
      CalculateSlotsRejects(o, s, date, e, services, schedules, appointments, clock);
  }

  // ----- TelegramAppointmentCreationView.post -----

  /** `all(field in data for field in required_fields)`. */
  predicate HasAllFields(data: Params) {
    && "client_name" in data && "client_phone" in data && "address" in data && "service" in data
    && "employee" in data && "start_time" in data && "organization" in data
  }

  /** The status code and the two tables after the request. */
  datatype TelegramResult = TelegramResult(status: int, clients: seq<Client>, appointments: seq<Appointment>)

  function FindEmployee(employees: seq<Employee>, id: int): (r: Option<Employee>)
    ensures r.Some? ==> r.value in employees && r.value.id == id
    ensures r.None? ==> forall e :: e in employees ==> e.id != id
    decreases |employees|
  {
    if employees == [] then None
    else if employees[0].id == id then Some(employees[0])
    else FindEmployee(employees[1..], id)
  }

  /** The client table after the name of the client with that phone is set. */
  function RenameClient(clients: seq<Client>, phone: string, name: string): seq<Client> {
    match FindClient(clients, phone)
    case None => clients
    case Some(k) => clients[k := clients[k].(name := name)]
  }

  /** get_or_create on the phone, then the rename when an existing client's name differs. */
  function ClientStep(clients: seq<Client>, phone: string, name: string, freshClientId: int): (Client, seq<Client>) {
    var (client, afterGet, created) := GetOrCreateClient(clients, phone, name, freshClientId);
    (client, if !created && client.name != name then RenameClient(afterGet, phone, name) else afterGet)
  }

  /** After the client step the table holds a client with that phone, that name and the id the booking uses. */
  lemma ClientStepFacts(clients: seq<Client>, phone: string, name: string, freshClientId: int)
    ensures var (client, after) := ClientStep(clients, phone, name, freshClientId);
      exists c :: c in after && c.phoneNumber == phone && c.name == name && c.id == client.id
  {
    var (client, afterGet, created) := GetOrCreateClient(clients, phone, name, freshClientId);
    if !created && client.name != name {
      var k := FindClient(afterGet, phone).value;
      assert RenameClient(afterGet, phone, name)[k] == afterGet[k].(name := name);
    } else if created {
      assert afterGet[|afterGet| - 1] == Client(freshClientId, name, phone);
    } else {
      var k := FindClient(clients, phone).value;
      assert afterGet[k] == client;
    }
  }

  /** The booking a request describes once the service, employee, organization and start_time are resolved. */
  datatype TelegramBooking =
    | Failed(status: int)
    | Booking(service: Service, employee: Employee, organizationId: int, start: int, end: int)

  /**
   * The three `objects.get` calls and `strptime`, in order: an id that is not
   * an integer or a start_time not in `%Y-%m-%d %H:%M` form is a ValueError
   * (400), an unknown id is DoesNotExist (404).
   */
  function ResolveBooking(data: Params, services: seq<Service>, employees: seq<Employee>, organizations: seq<int>)
    : TelegramBooking
    requires HasAllFields(data)
  {
    match ParseInt(data["service"])
    case None => Failed(400)
    case Some(serviceId) =>
      match FindService(services, serviceId)
      case None => Failed(404)
      case Some(service) =>
        match ParseInt(data["employee"])
        case None => Failed(400)
        case Some(employeeId) =>
          match FindEmployee(employees, employeeId)
          case None => Failed(404)
          case Some(employee) =>
            match ParseInt(data["organization"])
            case None => Failed(400)
            case Some(organizationId) =>
              if organizationId !in organizations then Failed(404)
              else
                match ParseDateTime(data["start_time"])
                case None => Failed(400)
                case Some((day, hour, minute)) =>
                  var start := Midnight(day) + hour * 3600 + minute * SecondsPerMinute;
                  Booking(service, employee, organizationId, start, start + service.totalDuration * SecondsPerMinute)
  }

  /**
   * A resolved request names an existing service, employee and organization
   * by their ids, starts at the local instant start_time names and ends
   * total_duration minutes later; otherwise the status is 400 or 404.
   */
  lemma ResolveBookingFacts(data: Params, services: seq<Service>, employees: seq<Employee>, organizations: seq<int>)
    requires HasAllFields(data)
    ensures var b := ResolveBooking(data, services, employees, organizations);
      && (b.Failed? ==> b.status == 400 || b.status == 404)
      && (b.Booking? ==>
            && b.service in services && ParseInt(data["service"]) == Some(b.service.id)
            && b.employee in employees && ParseInt(data["employee"]) == Some(b.employee.id)
            && b.organizationId in organizations && ParseInt(data["organization"]) == Some(b.organizationId)
            && b.end == b.start + b.service.totalDuration * 60
            && exists day, hour, minute :: ParseDateTime(data["start_time"]) == Some((day, hour, minute))
                 && b.start == Midnight(day) + hour * 3600 + minute * 60)
  {
    var b := ResolveBooking(data, services, employees, organizations);
    if b.Booking? {
      var (day, hour, minute) := ParseDateTime(data["start_time"]).value;
      assert b.start == Midnight(day) + hour * 3600 + minute * 60;
    }
  }

  /** The view's conflict query: that employee, end_time > start and start_time < end, any status. */
  predicate TelegramConflict(a: Appointment, employeeId: int, start: int, end: int) {
    a.employeeId == Some(employeeId) && a.end > start && a.start < end
  }

  /** The record the view inserts: CONFIRMED, with the address from the request. */
  function TelegramRecord(data: Params, b: TelegramBooking, clientId: int, id: int): Appointment
    requires b.Booking? && "address" in data
  {
    Appointment(id, b.organizationId, clientId, Some(b.employee.id), b.service.id, b.start, b.end,
                Confirmed, data["address"], None, false)
  }

  /** The conflict check and the insert; a second row with the same employee and start breaks the constraint (500). */
  function BookStep(data: Params, b: TelegramBooking, clientId: int, appointments: seq<Appointment>,
                    freshAppointmentId: int): (int, seq<Appointment>)
    requires b.Booking? && "address" in data
  {
    if exists a :: a in appointments && TelegramConflict(a, b.employee.id, b.start, b.end) then (409, appointments)
    else
      var a := TelegramRecord(data, b, clientId, freshAppointmentId);
      if exists k :: 0 <= k < |appointments| && SameEmployee(appointments[k], a) && appointments[k].start == a.start
      then (500, appointments)
      else (201, appointments + [a])
  }

  /**
   * 409 exactly when an appointment of that employee overlaps the new one;
   * nothing is written unless the answer is 201, and a 201 record overlaps
   * no appointment of its employee.
   */
  lemma BookStepFacts(data: Params, b: TelegramBooking, clientId: int, appointments: seq<Appointment>,
                      freshAppointmentId: int)
    requires b.Booking? && "address" in data
    ensures var (status, after) := BookStep(data, b, clientId, appointments, freshAppointmentId);
      && (status == 409 <==> exists a :: a in appointments && TelegramConflict(a, b.employee.id, b.start, b.end))
      && (status != 201 ==> after == appointments)
      && (status == 201 ==>
            var a := TelegramRecord(data, b, clientId, freshAppointmentId);
            && after == appointments + [a]
            && forall k :: 0 <= k < |appointments| && SameEmployee(appointments[k], a) ==> !Overlaps(appointments[k], a))
  {
    var (status, after) := BookStep(data, b, clientId, appointments, freshAppointmentId);
    if status == 201 {
      var a := TelegramRecord(data, b, clientId, freshAppointmentId);
      forall k | 0 <= k < |appointments| && SameEmployee(appointments[k], a)
        ensures !Overlaps(appointments[k], a)
      {
        assert appointments[k] in appointments;
      }
    }
  }

  /** `post(request)`: the client is found or created (and renamed) before anything else can fail. */
  function TelegramCreate(data: Params, clients: seq<Client>, services: seq<Service>, employees: seq<Employee>,
                          organizations: seq<int>, appointments: seq<Appointment>,
                          freshClientId: int, freshAppointmentId: int): TelegramResult
  {
    if !HasAllFields(data) then TelegramResult(400, clients, appointments)
    else
      var (client, clientsAfter) := ClientStep(clients, data["client_phone"], data["client_name"], freshClientId);
      var b := ResolveBooking(data, services, employees, organizations);
      if b.Failed? then TelegramResult(b.status, clientsAfter, appointments)
      else
        var (status, after) := BookStep(data, b, client.id, appointments, freshAppointmentId);
        TelegramResult(status, clientsAfter, after)
  }

  /** Without all seven fields the answer is 400 and neither table changes. */
  lemma TelegramMissingFields(data: Params, clients: seq<Client>, services: seq<Service>, employees: seq<Employee>,
                              organizations: seq<int>, appointments: seq<Appointment>,
                              freshClientId: int, freshAppointmentId: int)
    requires !HasAllFields(data)
    ensures TelegramCreate(data, clients, services, employees, organizations, appointments, freshClientId, freshAppointmentId)
      == TelegramResult(400, clients, appointments)
  {
  }

  /**
   * Once the fields are present, a client with that phone and the given name
   * is in the client table whatever the outcome; only a 201 adds an
   * appointment.
   */
  lemma TelegramClientStep(data: Params, clients: seq<Client>, services: seq<Service>, employees: seq<Employee>,
                           organizations: seq<int>, appointments: seq<Appointment>,
                           freshClientId: int, freshAppointmentId: int)
    requires HasAllFields(data)
    ensures var r := TelegramCreate(data, clients, services, employees, organizations, appointments,
                                    freshClientId, freshAppointmentId);
      && (r.status == 201 || r.appointments == appointments)
      && exists c :: c in r.clients && c.phoneNumber == data["client_phone"] && c.name == data["client_name"]
  {
    ClientStepFacts(clients, data["client_phone"], data["client_name"], freshClientId);
    var (client, clientsAfter) := ClientStep(clients, data["client_phone"], data["client_name"], freshClientId);
    var b := ResolveBooking(data, services, employees, organizations);
    if b.Booking? {
      BookStepFacts(data, b, client.id, appointments, freshAppointmentId);
    }
  }

  /**
   * When the request resolves, the answer is 409 exactly when an appointment
   * of that employee, of any status, overlaps [start, start + total_duration),
   * and a 409 writes no appointment.
   */
  lemma TelegramConflictIff(data: Params, clients: seq<Client>, services: seq<Service>, employees: seq<Employee>,
                            organizations: seq<int>, appointments: seq<Appointment>,
                            freshClientId: int, freshAppointmentId: int)
    requires HasAllFields(data)
    requires ResolveBooking(data, services, employees, organizations).Booking?
    ensures var b := ResolveBooking(data, services, employees, organizations);
      var r := TelegramCreate(data, clients, services, employees, organizations, appointments,
                              freshClientId, freshAppointmentId);
      && (r.status == 409 <==> exists a :: a in appointments && TelegramConflict(a, b.employee.id, b.start, b.end))
      && (r.status == 409 ==> r.appointments == appointments)
  {
    var (client, clientsAfter) := ClientStep(clients, data["client_phone"], data["client_name"], freshClientId);
    BookStepFacts(data, ResolveBooking(data, services, employees, organizations), client.id, appointments,
                  freshAppointmentId);
  }

  /**
   * A 201 appends one CONFIRMED appointment of the requested employee and
   * service, at the resolved start and end, with the request's address, and
   * it overlaps no appointment of that employee.
   */
  lemma TelegramCreatedFacts(data: Params, clients: seq<Client>, services: seq<Service>, employees: seq<Employee>,
                             organizations: seq<int>, appointments: seq<Appointment>,
                             freshClientId: int, freshAppointmentId: int)
    requires TelegramCreate(data, clients, services, employees, organizations, appointments,
                            freshClientId, freshAppointmentId).status == 201
    ensures HasAllFields(data)
    ensures var b := ResolveBooking(data, services, employees, organizations);
      var r := TelegramCreate(data, clients, services, employees, organizations, appointments,
                              freshClientId, freshAppointmentId);
      && b.Booking?
      && |r.appointments| == |appointments| + 1
      && r.appointments[..|appointments|] == appointments
      && var a := r.appointments[|appointments|];
         && a.status == Confirmed && a.id == freshAppointmentId && a.address == data["address"]
         && a.employeeId == Some(b.employee.id) && a.serviceId == b.service.id
         && a.start == b.start && a.end == b.end
         && forall k :: 0 <= k < |appointments| && SameEmployee(appointments[k], a) ==> !Overlaps(appointments[k], a)
  {
    var (client, clientsAfter) := ClientStep(clients, data["client_phone"], data["client_name"], freshClientId);
    var b := ResolveBooking(data, services, employees, organizations);
    BookStepFacts(data, b, client.id, appointments, freshAppointmentId);
    var r := TelegramCreate(data, clients, services, employees, organizations, appointments,
                            freshClientId, freshAppointmentId);
    assert r.appointments == appointments + [TelegramRecord(data, b, client.id, freshAppointmentId)];
    assert r.appointments[..|appointments|] == appointments;
  }

  /** Whatever the request, the Telegram endpoint keeps every employee's calendar free of overlaps. */
  lemma TelegramKeepsNoDoubleBooking(data: Params, clients: seq<Client>, services: seq<Service>,
                                     employees: seq<Employee>, organizations: seq<int>,
                                     appointments: seq<Appointment>, freshClientId: int, freshAppointmentId: int)
    requires NoDoubleBooking(appointments)
    ensures NoDoubleBooking(TelegramCreate(data, clients, services, employees, organizations, appointments,
                                           freshClientId, freshAppointmentId).appointments)
  {
    var r := TelegramCreate(data, clients, services, employees, organizations, appointments,
                            freshClientId, freshAppointmentId);
    if HasAllFields(data) {
      TelegramClientStep(data, clients, services, employees, organizations, appointments,
                         freshClientId, freshAppointmentId);
      if r.status == 201 {
        TelegramCreatedFacts(data, clients, services, employees, organizations, appointments,
                             freshClientId, freshAppointmentId);
        var a := r.appointments[|appointments|];
        assert r.appointments == appointments + [a];
        AppendKeepsNoDoubleBooking(appointments, a);
      }
    }
  }

  // ----- AnalyticsViewSet.get -----

  const ReportDays: int := 7

  /** A row of the report: a day (its ordinal, day 1 being 0001-01-01) and the number of appointments on it. */
  datatype DayCount = DayCount(day: int, count: nat)

  /** The filter: start_time at or after now minus seven days, status PENDING or CONFIRMED. */
  predicate InReport(a: Appointment, now: int) {
    a.start >= now - ReportDays * SecondsPerDay && IsActive(a.status)
  }

  /** `TruncDate(start_time)`: the ordinal of the local date of an instant. */
  function DayOf(t: int): int {
    t / SecondsPerDay + 1
  }

  /** The number of report appointments on a day. */
  function CountOn(appointments: seq<Appointment>, now: int, day: int): nat
    decreases |appointments|
  {
    if appointments == [] then 0
    else
      var last := appointments[|appointments| - 1];
      CountOn(appointments[..|appointments| - 1], now, day)
      + (if InReport(last, now) && DayOf(last.start) == day then 1 else 0)
  }

  predicate AscendingDays(rows: seq<DayCount>) {
    forall i, j :: 0 <= i < j < |rows| ==> rows[i].day < rows[j].day
  }

  /** The count a report gives for a day, 0 when it has no row for it. */
  function RowFor(rows: seq<DayCount>, day: int): nat
    decreases |rows|
  {
    if rows == [] then 0
    else if rows[0].day == day then rows[0].count
    else RowFor(rows[1..], day)
  }

  /** Counting one more appointment on `day` in a report ordered by day. */
  function AddToReport(rows: seq<DayCount>, day: int): seq<DayCount>
    decreases |rows|
  {
    if rows == [] then [DayCount(day, 1)]
    else if rows[0].day == day then [rows[0].(count := rows[0].count + 1)] + rows[1..]
    else if day < rows[0].day then [DayCount(day, 1)] + rows
    else [rows[0]] + AddToReport(rows[1..], day)
  }

  /** `values('date').annotate(count=Count('id')).order_by('date')` over the filtered appointments. */
  function Report(appointments: seq<Appointment>, now: int): seq<DayCount>
    decreases |appointments|
  {
    if appointments == [] then []
    else
      var prev := Report(appointments[..|appointments| - 1], now);
      var last := appointments[|appointments| - 1];
      if InReport(last, now) then AddToReport(prev, DayOf(last.start)) else prev
  }

  predicate PositiveCounts(rows: seq<DayCount>) {
    forall k :: 0 <= k < |rows| ==> rows[k].count > 0
  }

  /** Every day of a report lies above a bound. */
  predicate Above(rows: seq<DayCount>, bound: int) {
    forall k :: 0 <= k < |rows| ==> rows[k].day > bound
  }

  lemma {:induction false} AddToReportAbove(rows: seq<DayCount>, day: int, bound: int)
    requires Above(rows, bound) && day > bound
    ensures Above(AddToReport(rows, day), bound)
    decreases |rows|
  {
    if rows != [] && rows[0].day != day && day >= rows[0].day {
      AddToReportAbove(rows[1..], day, bound);
    }
  }

  /** Counting one more appointment keeps the report in ascending day order with positive counts. */
  lemma {:induction false} AddToReportSorted(rows: seq<DayCount>, day: int)
    requires AscendingDays(rows) && PositiveCounts(rows)
    ensures AscendingDays(AddToReport(rows, day)) && PositiveCounts(AddToReport(rows, day))
    decreases |rows|
  {
    if rows != [] && rows[0].day != day && day >= rows[0].day {
      AddToReportSorted(rows[1..], day);
      AddToReportAbove(rows[1..], day, rows[0].day);
      assert AddToReport(rows, day) == [rows[0]] + AddToReport(rows[1..], day);
    } else if rows != [] && rows[0].day != day {
      assert AddToReport(rows, day)[1..] == rows;
    } else if rows != [] {
      assert AddToReport(rows, day)[1..] == rows[1..];
    }
  }

  /** Counting one more appointment on `day` adds one to that day's count and leaves the others alone. */
  lemma {:induction false} AddToReportRow(rows: seq<DayCount>, day: int, e: int)
    requires AscendingDays(rows)
    ensures RowFor(AddToReport(rows, day), e) == RowFor(rows, e) + (if e == day then 1 else 0)
    decreases |rows|
  {
    if rows != [] && rows[0].day != day && day >= rows[0].day {
      AddToReportRow(rows[1..], day, e);
    } else if rows != [] && rows[0].day != day {
      assert AddToReport(rows, day)[1..] == rows;
      if e == day {
        RowForBelow(rows, e);
      }
    } else if rows != [] {
      assert AddToReport(rows, day)[1..] == rows[1..];
    }
  }

  /** A day before the first row of an ascending report has no row. */
  lemma {:induction false} RowForBelow(rows: seq<DayCount>, day: int)
    requires AscendingDays(rows)
    requires rows != [] && day < rows[0].day
    ensures RowFor(rows, day) == 0
    decreases |rows|
  {
    if |rows| > 1 {
      assert rows[1..][0].day == rows[1].day;
      RowForBelow(rows[1..], day);
    }
  }

  /**
   * The report: one row per day, in ascending order, each with a positive
   * count equal to the number of PENDING or CONFIRMED appointments that
   * started on that day no earlier than seven days before now; days with no
   * such appointment have no row.
   */
  lemma {:induction false} ReportExact(appointments: seq<Appointment>, now: int)
    ensures AscendingDays(Report(appointments, now))
    ensures PositiveCounts(Report(appointments, now))
    ensures forall day :: RowFor(Report(appointments, now), day) == CountOn(appointments, now, day)
    decreases |appointments|
  {
    if appointments != [] {
      var n := |appointments| - 1;
      ReportExact(appointments[..n], now);
      if InReport(appointments[n], now) {
        AddToReportSorted(Report(appointments[..n], now), DayOf(appointments[n].start));
        forall day ensures RowFor(Report(appointments, now), day) == CountOn(appointments, now, day) {
          AddToReportRow(Report(appointments[..n], now), DayOf(appointments[n].start), day);
        }
      }
    }
  }

  /** Appointments outside the window, or CANCELLED or COMPLETED, are never counted. */
  lemma {:induction false} ReportIgnores(appointments: seq<Appointment>, now: int, a: Appointment)
    requires !InReport(a, now)
    ensures Report(appointments + [a], now) == Report(appointments, now)
  {
    assert (appointments + [a])[..|appointments|] == appointments;
  }
}

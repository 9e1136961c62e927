/**
 * The request handlers of Problem5/src/controllers/employee.controller.ts,
 * without the HTTP plumbing: each handler takes the already-extracted request
 * fields and returns the status and body it would send. Values the database
 * assigns (a fresh id, the write instant) are parameters.
 */
module EmployeeController {
  import opened Wrappers
  import opened Employees
  import opened Filters
  import opened SortKeys
  import opened IntParsing
  import opened ResponseDto
  import opened EmployeeService

  const INVALID_AGE_MESSAGE: string := "Invalid employee age"
  const INVALID_UUID_MESSAGE: string := "Invalid UUID format for employee ID"

  /** The `pagination` object of a list reply. */
  datatype Pagination = Pagination(page: int, pageSize: int, total: nat, totalPages: nat)

  /** The `data` member of a successful reply. */
  datatype Data =
    | NoData
    | Created(created: CreateEmployeeData)
    | Updated(updated: UpdateEmployeeData)
    | Viewed(viewed: GetEmployeeData)
    | Listed(items: seq<GetEmployeeData>, pagination: Pagination)

  /** What a handler sends: `{ success: true, message, data }` or `{ success: false, error }`. */
  datatype Reply =
    | Answer(status: nat, message: string, data: Data)
    | Refusal(status: nat, error: string)

  /** An Express query value: missing, given once, or repeated. */
  datatype QueryParam = Absent | Scalar(value: string) | Repeated(values: seq<string>)

  /** The query of a list request. */
  datatype ListQuery = ListQuery(
    name: Option<string>,
    email: Option<string>,
    sortBy: QueryParam,
    order: QueryParam,
    page: Option<string>,
    pageSize: Option<string>)

  const DEFAULT_SORT_BY: seq<string> := ["employee_id"]
  const DEFAULT_ORDER: seq<string> := ["asc"]
  const DEFAULT_PAGE: string := "1"
  const DEFAULT_PAGE_SIZE: string := "10"

  function OrDefault(o: Option<string>, default: string): string {
    if o.Some? then o.value else default
  }

  /**
   * The destructuring default for a missing value, then
   * `Array.isArray(v) ? v : [v]`.
   */
  function AsList(q: QueryParam, default: seq<string>): (r: seq<string>)
    ensures q.Absent? ==> r == default
    ensures q.Scalar? ==> r == [q.value]
    ensures q.Repeated? ==> r == q.values
  {
    match q
    case Absent => default
    case Scalar(v) => [v]
    case Repeated(vs) => vs
  }

  /** The sort keys a list request ends up with. */
  function RequestedOrder(q: ListQuery): seq<SortKey> {
    OrderBy(AsList(q.sortBy, DEFAULT_SORT_BY), AsList(q.order, DEFAULT_ORDER))
  }

  /**
   * With neither `sort_by` nor `order` given, the default field "employee_id"
   * is not on the allow-list, so the list is not ordered at all.
   */
  lemma DefaultOrderIsEmpty(q: ListQuery)
    requires q.sortBy.Absent? && q.order.Absent?
    ensures RequestedOrder(q) == []
  {
    OrderByNoneAllowed(DEFAULT_SORT_BY, DEFAULT_ORDER);
  }

  /** A single `sort_by` value is wrapped into a one-element list, and so is a single `order`. */
  lemma ScalarSortWrapped(q: ListQuery)
    requires q.sortBy.Scalar? && q.order.Scalar?
    ensures RequestedOrder(q) ==
      if q.sortBy.value in VALID_SORT_FIELDS
      then [SortKey(AllowedField(q.sortBy.value).value, if q.order.value == "desc" then Desc else Asc)]
      else []
  {
    OrderByAppend([], q.sortBy.value, [q.order.value]);
    assert [] + [q.sortBy.value] == [q.sortBy.value];
  }

  /** The page number and page size a list request parses to. */
  function PageOf(q: ListQuery): Option<int> {
    ParseInt(OrDefault(q.page, DEFAULT_PAGE))
  }

  function PageSizeOf(q: ListQuery): Option<int> {
    ParseInt(OrDefault(q.pageSize, DEFAULT_PAGE_SIZE))
  }

  /** Page number and size parse to positive integers (other values are not modelled). */
  predicate PagingValid(q: ListQuery) {
    && PageOf(q).Some? && PageOf(q).value >= 1
    && PageSizeOf(q).Some? && PageSizeOf(q).value >= 1
  }

  /** Without `page` and `page_size` the first page of ten rows is asked for. */
  lemma DefaultPaging(q: ListQuery)
    requires q.page.None? && q.pageSize.None?
    ensures PagingValid(q) && PageOf(q) == Some(1) && PageSizeOf(q) == Some(10)
  {
    ParseDefaults();
  }

  /** `(page - 1) * page_size`: the rows before the requested page. */
  function SkipFor(page: int, pageSize: int): (skip: nat)
    requires page >= 1 && pageSize >= 1
    ensures skip == (page - 1) * pageSize
    ensures skip % pageSize == 0 && skip / pageSize == page - 1
  {
    MultipleDivides(page - 1, pageSize);
    (page - 1) * pageSize
  }

  /** Dividing a multiple of `d` by `d` leaves no remainder and gives the factor back. */
  lemma MultipleDivides(q: int, d: int)
    requires d >= 1
    ensures (q * d) % d == 0 && (q * d) / d == q
  {
    var k, r := (q * d) / d, (q * d) % d;
    assert q * d == k * d + r && 0 <= r < d;
    assert (q - k) * d == r;
    ProductSign(q - k, d);
  }

  lemma ProductSign(m: int, d: int)
    requires d >= 1
    ensures m >= 1 ==> m * d >= d
    ensures m <= -1 ==> m * d <= -d
  {
    if m >= 1 {
      MultiplyMonotone(1, m, d);
    } else if m <= -1 {
      MultiplyMonotone(m, -1, d);
    }
  }

  /** `Math.ceil(total / page_size)`: the fewest pages of `page_size` rows that hold `total` rows. */
  function TotalPages(total: nat, pageSize: int): (n: nat)
    requires pageSize >= 1
    ensures total <= n * pageSize
    ensures (n - 1) * pageSize < total || n == 0
    ensures n == 0 <==> total == 0
  {
    (total + pageSize - 1) / pageSize
  }

  /** Page sizes of ten: 0 rows make 0 pages, 1 to 10 rows one page, 11 rows two pages. */
  lemma TotalPagesExamples(total: nat)
    ensures TotalPages(0, 10) == 0
    ensures 1 <= total <= 10 ==> TotalPages(total, 10) == 1
    ensures TotalPages(11, 10) == 2
  {
  }

  /**
   * Pages tile the listing: row `i` (counting from 0) lies on page
   * `i / page_size + 1`, which is within `total_pages`, and that page's
   * window starts at or before row `i` and ends after it.
   */
  lemma {:induction false} PageOfRow(total: nat, pageSize: int, i: nat)
    requires pageSize >= 1 && i < total
    ensures var p := i / pageSize + 1;
      1 <= p <= TotalPages(total, pageSize) && SkipFor(p, pageSize) <= i < SkipFor(p, pageSize) + pageSize
  {
    var q, r := i / pageSize, i % pageSize;
    assert i == q * pageSize + r && 0 <= r < pageSize;
    assert (q + 1) * pageSize == q * pageSize + pageSize;
    var n := TotalPages(total, pageSize);
    if n <= q {
      MultiplyMonotone(n, q, pageSize);
      assert false;
    }
  }

  lemma MultiplyMonotone(a: int, b: int, c: nat)
    requires a <= b
    ensures a * c <= b * c
  {
    assert b * c - a * c == (b - a) * c;
  }

  /** Create: a conflict for a duplicate email or a stale version, otherwise a server error. */
  function CreateFailureStatus(message: string): (status: nat)
    ensures status == 409 <==> message == STALE_DATA_MESSAGE || message == DUPLICATE_EMAIL_MESSAGE
    ensures status == 409 || status == 500
  {
    if message == STALE_DATA_MESSAGE || message == DUPLICATE_EMAIL_MESSAGE then 409 else 500
  }

  /** Update and delete: a conflict only for a stale version, otherwise a server error. */
  function MutationFailureStatus(message: string): (status: nat)
    ensures status == 409 <==> message == STALE_DATA_MESSAGE
    ensures status == 409 || status == 500
  {
    if message == STALE_DATA_MESSAGE then 409 else 500
  }

  /** The create handler's reply: 201 with the create view, or the error's status and message. */
  function CreateReply(r: Result<Employee, ServiceError>): (reply: Reply)
    ensures reply.Answer? <==> r.Success?
    ensures r.Success? ==>
      reply.status == 201 && reply.message == "Employee created successfully"
      && reply.data == Created(ToCreateEmployeeData(r.value))
    ensures r.Failure? ==>
      reply.error == r.error.Message()
      && (reply.status == 409 <==> r.error != NotFound)
      && (reply.status == 409 || reply.status == 500)
  {
    match r
    case Success(e) => Answer(201, "Employee created successfully", Created(ToCreateEmployeeData(e)))
    case Failure(err) =>
      MessagesDistinct(err, NotFound);
      MessagesDistinct(err, StaleData);
      MessagesDistinct(err, DuplicateEmail);
      Refusal(CreateFailureStatus(err.Message()), err.Message())
  }

  /** The update handler's reply: 200 with the update view, or the error's status and message. */
  function UpdateReply(r: Result<Employee, ServiceError>): (reply: Reply)
    ensures reply.Answer? <==> r.Success?
    ensures r.Success? ==>
      reply.status == 200 && reply.message == "Employee updated successfully"
      && reply.data == Updated(ToUpdateEmployeeData(r.value))
    ensures r.Failure? ==>
      reply.error == r.error.Message()
      && (reply.status == 409 <==> r.error == StaleData)
      && (reply.status == 409 || reply.status == 500)
  {
    match r
    case Success(e) => Answer(200, "Employee updated successfully", Updated(ToUpdateEmployeeData(e)))
    case Failure(err) =>
      MessagesDistinct(err, StaleData);
      Refusal(MutationFailureStatus(err.Message()), err.Message())
  }

  /** The delete handler's reply: 200 with no data, or the error's status and message. */
  function DeleteReply(r: Result<(), ServiceError>): (reply: Reply)
    ensures reply.Answer? <==> r.Success?
    ensures r.Success? ==>
      reply.status == 200 && reply.message == "Employee deleted successfully" && reply.data == NoData
    ensures r.Failure? ==>
      reply.error == r.error.Message()
      && (reply.status == 409 <==> r.error == StaleData)
      && (reply.status == 409 || reply.status == 500)
  {
    match r
    case Success(_) => Answer(200, "Employee deleted successfully", NoData)
    case Failure(err) =>
      MessagesDistinct(err, StaleData);
      Refusal(MutationFailureStatus(err.Message()), err.Message())
  }

  /**
   * How each service error reaches the client: a duplicate email is a 409 on
   * create; a stale version is a 409 everywhere; "not found" from update or
   * delete falls into the catch-all 500, not 404.
   */
  lemma ErrorStatuses()
    ensures CreateReply(Failure(DuplicateEmail)) == Refusal(409, DUPLICATE_EMAIL_MESSAGE)
    ensures CreateReply(Failure(StaleData)) == Refusal(409, STALE_DATA_MESSAGE)
    ensures UpdateReply(Failure(StaleData)) == Refusal(409, STALE_DATA_MESSAGE)
    ensures DeleteReply(Failure(StaleData)) == Refusal(409, STALE_DATA_MESSAGE)
    ensures UpdateReply(Failure(NotFound)) == Refusal(500, NOT_FOUND_MESSAGE)
    ensures DeleteReply(Failure(NotFound)) == Refusal(500, NOT_FOUND_MESSAGE)
    ensures UpdateReply(Failure(DuplicateEmail)) == Refusal(500, DUPLICATE_EMAIL_MESSAGE)
  {
    MessagesDistinct(NotFound, StaleData);
    MessagesDistinct(DuplicateEmail, StaleData);
  }

  /** The get view of each row of a page, in order. */
  function Views(rows: seq<Employee>): (r: seq<GetEmployeeData>)
    ensures |r| == |rows|
    ensures forall i :: 0 <= i < |rows| ==> r[i] == ToGetEmployeeData(rows[i])
  {
    seq(|rows|, i requires 0 <= i < |rows| => ToGetEmployeeData(rows[i]))
  }

  /** `createEmployee` handler: parse the age, then create. */
  method CreateEmployeeHandler(store: EmployeeTable, name: string, email: string, age: string, newId: string, now: int)
    returns (reply: Reply)
    requires store.Valid() && newId !in store.rows
    modifies store
    ensures store.Valid()
    ensures ParseInt(age).None? ==> reply == Refusal(400, INVALID_AGE_MESSAGE) && store.rows == old(store.rows)
    ensures ParseInt(age).Some? ==>
      var step := CreateStep(old(store.rows), name, email, ParseInt(age).value, newId, now);
      store.rows == step.table && reply == CreateReply(step.result)
  {
    var employeeAge := ParseInt(age);
    if employeeAge.None? {
      return Refusal(400, INVALID_AGE_MESSAGE);
    }
    var r := store.CreateEmployee(name, email, employeeAge.value, newId, now);
    reply := CreateReply(r);
  }

  /**
   * `getEmployees` handler: defaults, list wrapping, the page window, then
   * the page of rows and the total under the same filter.
   */
  method GetEmployeesHandler(store: EmployeeTable, q: ListQuery) returns (reply: Reply, ghost listing: seq<Employee>)
    requires store.Valid() && PagingValid(q)
    ensures var f := Filter(q.name, q.email);
      var page := PageOf(q).value;
      var pageSize := PageSizeOf(q).value;
      var total := CountMatching(store.rows, f);
      && IsListing(store.rows, f, RequestedOrder(q), listing)
      && reply == Answer(200, "Successfully retrieved employee list",
                         Listed(Views(Window(listing, SkipFor(page, pageSize), pageSize)),
                                Pagination(page, pageSize, total, TotalPages(total, pageSize))))
  {
    var sortBy := AsList(q.sortBy, DEFAULT_SORT_BY);
    var order := AsList(q.order, DEFAULT_ORDER);
    var page := PageOf(q).value;
    var pageSize := PageSizeOf(q).value;
    var f := Filter(q.name, q.email);
    var employees;
    employees, listing := store.GetEmployees(f, sortBy, order, SkipFor(page, pageSize), pageSize);
    var total := store.TotalEmployees(f);
    reply := Answer(200, "Successfully retrieved employee list",
                    Listed(Views(employees), Pagination(page, pageSize, total, TotalPages(total, pageSize))));
  }

  /** `getEmployeeById` handler: 400 for a malformed id, 404 for a missing row. */
  method GetEmployeeByIdHandler(store: EmployeeTable, id: string) returns (reply: Reply)
    requires store.Valid()
    ensures !IsUuid(id) ==> reply == Refusal(400, INVALID_UUID_MESSAGE)
    ensures IsUuid(id) && id !in store.rows ==> reply == Refusal(404, NOT_FOUND_MESSAGE)
    ensures IsUuid(id) && id in store.rows ==>
      reply == Answer(200, "Successfully retrieved employee information", Viewed(ToGetEmployeeData(store.rows[id])))
  {
    var employeeId := ParseEmployeeId(id);
    if employeeId.None? {
      return Refusal(400, INVALID_UUID_MESSAGE);
    }
    var employee := store.GetEmployeeById(employeeId.value);
    if employee.None? {
      return Refusal(404, NOT_FOUND_MESSAGE);
    }
    reply := Answer(200, "Successfully retrieved employee information", Viewed(ToGetEmployeeData(employee.value)));
  }

  /**
   * `updateEmployee` handler: the id check, then the age check, each
   * answering 400 before the service is called; then the update.
   */
  method UpdateEmployeeHandler(store: EmployeeTable, id: string, name: string, email: string, age: string,
                               presented: Option<int>, now: int)
    returns (reply: Reply)
    requires store.Valid()
    modifies store
    ensures store.Valid()
    ensures !IsUuid(id) ==> reply == Refusal(400, INVALID_UUID_MESSAGE) && store.rows == old(store.rows)
    ensures IsUuid(id) && ParseInt(age).None? ==>
      reply == Refusal(400, INVALID_AGE_MESSAGE) && store.rows == old(store.rows)
    ensures IsUuid(id) && ParseInt(age).Some? ==>
      var step := UpdateStep(old(store.rows), id, name, email, ParseInt(age).value, presented, now);
      store.rows == step.table && reply == UpdateReply(step.result)
    ensures IsUuid(id) && ParseInt(age).Some? && id !in old(store.rows) ==>
      reply == Refusal(500, NOT_FOUND_MESSAGE) && store.rows == old(store.rows)
  {
    var employeeId := ParseEmployeeId(id);
    if employeeId.None? {
      return Refusal(400, INVALID_UUID_MESSAGE);
    }
    var employeeAge := ParseInt(age);
    if employeeAge.None? {
      return Refusal(400, INVALID_AGE_MESSAGE);
    }
    var r := store.UpdateEmployee(employeeId.value, name, email, employeeAge.value, presented, now);
    reply := UpdateReply(r);
    ErrorStatuses();
  }

  /** `deleteEmployee` handler: the id check, then the delete. */
  method DeleteEmployeeHandler(store: EmployeeTable, id: string, presented: Option<int>) returns (reply: Reply)
    requires store.Valid()
    modifies store
    ensures store.Valid()
    ensures !IsUuid(id) ==> reply == Refusal(400, INVALID_UUID_MESSAGE) && store.rows == old(store.rows)
    ensures IsUuid(id) ==>
      var step := DeleteStep(old(store.rows), id, presented);
      store.rows == step.table && reply == DeleteReply(step.result)
    ensures IsUuid(id) && id !in old(store.rows) ==>
      reply == Refusal(500, NOT_FOUND_MESSAGE) && store.rows == old(store.rows)
  {
    var employeeId := ParseEmployeeId(id);
    if employeeId.None? {
      return Refusal(400, INVALID_UUID_MESSAGE);
    }
    var r := store.DeleteEmployee(employeeId.value, presented);
    reply := DeleteReply(r);
    ErrorStatuses();
  }

  const ANN_ID: string := "123e4567-e89b-12d3-a456-426614174000"
  const ANDREW_ID: string := "123e4567-e89b-12d3-a456-426614174001"

  lemma SampleIdsAreUuids()
    ensures IsUuid(ANN_ID) && IsUuid(ANDREW_ID) && ANN_ID != ANDREW_ID
  {
    assert ANN_ID[35] != ANDREW_ID[35];
  }

  /** The ages the scenarios below send. */
  lemma SampleAgesParse()
    ensures ParseInt("30") == Some(30) && ParseInt("31") == Some(31)
    ensures ParseInt("32") == Some(32) && ParseInt("40") == Some(40)
  {
    ParseTwoDigits("30");
    ParseTwoDigits("31");
    ParseTwoDigits("32");
    ParseTwoDigits("40");
  }

  /**
   * Create an employee, update them presenting the version just read, then
   * repeat the update presenting that same, now stale, version: 201, 200,
   * then 409, and the second update writes nothing.
   */
  method StaleUpdateScenario(id: string, name: string, email: string, age: string, age': string)
    returns (created: Reply, updated: Reply, repeated: Reply)
    requires IsUuid(id) && ParseInt(age).Some? && ParseInt(age').Some?
    ensures created.Answer? && created.status == 201
    ensures updated.Answer? && updated.status == 200
    ensures repeated == Refusal(409, STALE_DATA_MESSAGE)
  {
    var store := new EmployeeTable();
    created := CreateEmployeeHandler(store, name, email, age, id, 1000);
    assert store.rows == map[id := Employee(id, name, email, ParseInt(age).value, 1000, 1000)];
    updated, repeated := UpdateTwice(store, id, name, email, ParseInt(age).value, age');
  }

  /** An update of the only row of a table, in closed form. */
  lemma UpdateOnlyRow(e: Employee, name: string, email: string, age: int, presented: Option<int>, now: int)
    ensures var e' := e.(name := name, email := email, age := age, updatedAt := now);
      UpdateStep(map[e.id := e], e.id, name, email, age, presented, now) ==
        if presented == Some(e.updatedAt) then Step(map[e.id := e'], Success(e'))
        else Step(map[e.id := e], Failure(StaleData))
  {
    assert WellKeyed(map[e.id := e]);
    assert map[e.id := e][e.id := e.(name := name, email := email, age := age, updatedAt := now)]
        == map[e.id := e.(name := name, email := email, age := age, updatedAt := now)];
  }

  /** The two updates of the scenario above, both presenting the version created at 1000. */
  method UpdateTwice(store: EmployeeTable, id: string, name: string, email: string, first: int, age': string)
    returns (updated: Reply, repeated: Reply)
    requires IsUuid(id) && ParseInt(age').Some?
    requires store.Valid() && store.rows == map[id := Employee(id, name, email, first, 1000, 1000)]
    modifies store
    ensures updated.Answer? && updated.status == 200
    ensures repeated == Refusal(409, STALE_DATA_MESSAGE)
    ensures store.rows == map[id := Employee(id, name, email, ParseInt(age').value, 1000, 2000)]
  {
    var second := ParseInt(age').value;
    var e := Employee(id, name, email, first, 1000, 1000);
    var e' := Employee(id, name, email, second, 1000, 2000);
    UpdateOnlyRow(e, name, email, second, Some(1000), 2000);
    UpdateOnlyRow(e', name, email, second, Some(1000), 3000);
    updated := UpdateEmployeeHandler(store, id, name, email, age', Some(1000), 2000);
    repeated := UpdateEmployeeHandler(store, id, name, email, age', Some(1000), 3000);
    ErrorStatuses();
  }

  /** Deleting twice: the second delete is a "not found", answered with 500. */
  method DeleteTwiceScenario() returns (first: Reply, second: Reply)
    ensures first == Answer(200, "Employee deleted successfully", NoData)
    ensures second == Refusal(500, NOT_FOUND_MESSAGE)
  {
    var store := new EmployeeTable();
    SampleIdsAreUuids();
    SampleAgesParse();
    var created := CreateEmployeeHandler(store, "Ann", "ann@x.com", "30", ANN_ID, 1000);
    first := DeleteEmployeeHandler(store, ANN_ID, Some(1000));
    second := DeleteEmployeeHandler(store, ANN_ID, Some(1000));
  }

  /** "An" occurs in both sample names. */
  lemma SampleNamesMatch()
    ensures Contains("Ann", "An") && Contains("Andrew", "An")
  {
    assert IsPrefix("An", "Ann");
    assert IsPrefix("An", "Andrew");
  }

  lemma TwoRowsMatch(rows: Table, f: Filter, ann: Employee, andrew: Employee)
    requires rows == map[ANN_ID := ann, ANDREW_ID := andrew]
    requires Matches(ann, f) && Matches(andrew, f)
    ensures CountMatching(rows, f) == 2
  {
    SampleIdsAreUuids();
    assert MatchIds(rows, f) == {ANN_ID, ANDREW_ID};
  }

  lemma OnePerPage(q: ListQuery)
    requires q.page == Some("1") && q.pageSize == Some("1")
    ensures PagingValid(q) && PageOf(q) == Some(1) && PageSizeOf(q) == Some(1)
  {
    ParseDefaults();
  }

  /** A table holding Ann and Andrew, filled through the create handler. */
  method TwoEmployees() returns (store: EmployeeTable)
    ensures fresh(store) && store.Valid()
    ensures store.rows == map[ANN_ID := Employee(ANN_ID, "Ann", "ann@x.com", 30, 1000, 1000),
                              ANDREW_ID := Employee(ANDREW_ID, "Andrew", "andrew@x.com", 40, 2000, 2000)]
  {
    store := new EmployeeTable();
    SampleIdsAreUuids();
    SampleAgesParse();
    var ann := CreateEmployeeHandler(store, "Ann", "ann@x.com", "30", ANN_ID, 1000);
    assert store.rows == map[ANN_ID := Employee(ANN_ID, "Ann", "ann@x.com", 30, 1000, 1000)];
    assert !EmailTaken(store.rows, "andrew@x.com");
    var andrew := CreateEmployeeHandler(store, "Andrew", "andrew@x.com", "40", ANDREW_ID, 2000);
  }

  /**
   * Two employees whose names contain "An", listed one per page: the first
   * page holds one row, and the pagination reports two rows on two pages.
   */
  method FilteredListScenario() returns (reply: Reply)
    ensures reply.Answer? && reply.data.Listed?
    ensures |reply.data.items| == 1
    ensures reply.data.pagination == Pagination(1, 1, 2, 2)
  {
    var store := TwoEmployees();
    ghost var rows := store.rows;
    var q := ListQuery(Some("An"), None, Absent, Absent, Some("1"), Some("1"));
    var f := Filter(Some("An"), None);
    SampleNamesMatch();
    TwoRowsMatch(rows, f, rows[ANN_ID], rows[ANDREW_ID]);
    OnePerPage(q);
    ghost var listing;
    reply, listing := GetEmployeesHandler(store, q);
    ListingSize(rows, f, RequestedOrder(q), listing);
  }
}

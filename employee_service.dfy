/**
 * The employee service (Problem5/src/services/employee.service.ts) over an
 * in-memory table that stands in for the database. Each mutating call is one
 * atomic step: look up, check, then write. The step functions state what a
 * call does to the table; the `EmployeeTable` methods perform the same steps
 * in place and are proved to agree with them.
 */
module EmployeeService {
  import opened Wrappers
  import opened Employees
  import opened Filters
  import opened SortKeys

  predicate IsHexDigit(c: char) {
    ('0' <= c <= '9') || ('a' <= c <= 'f') || ('A' <= c <= 'F')
  }

  /** Positions of the four hyphens in the 8-4-4-4-12 layout. */
  predicate IsHyphenPosition(i: int) {
    i == 8 || i == 13 || i == 18 || i == 23
  }

  /** The textual UUID layout of section 3 of RFC 4122: 32 hex digits in groups 8-4-4-4-12. */
  predicate IsUuid(s: string) {
    && |s| == 36
    && forall i :: 0 <= i < 36 ==> if IsHyphenPosition(i) then s[i] == '-' else IsHexDigit(s[i])
  }

  /** `parseEmployeeId`: the id itself when it is a UUID, `null` otherwise. */
  function ParseEmployeeId(id: string): (r: Option<string>)
    ensures r.Some? <==> IsUuid(id)
    ensures r.Some? ==> r.value == id
  {
    if IsUuid(id) then Some(id) else None
  }

  const SAMPLE_UUID: string := "123e4567-e89b-12d3-a456-426614174000"

  /** A sample UUID and malformed ids, as the route parameter may carry them. */
  lemma ParseEmployeeIdExamples()
    ensures ParseEmployeeId(SAMPLE_UUID) == Some(SAMPLE_UUID)
    ensures ParseEmployeeId("42") == None
    ensures ParseEmployeeId("123e4567e89b12d3a456426614174000----") == None
  {
    assert IsUuid(SAMPLE_UUID);
    assert !IsUuid("123e4567e89b12d3a456426614174000----") by {
      assert "123e4567e89b12d3a456426614174000----"[8] != '-';
    }
  }

  /** The email addresses stored in the table. */
  function Emails(t: Table): set<string> {
    set id | id in t :: t[id].email
  }

  /** `findUnique({ where: { employee_email } })` finds a row. */
  predicate EmailTaken(t: Table, email: string)
    ensures EmailTaken(t, email) <==> email in Emails(t)
  {
    exists id :: id in t && t[id].email == email
  }

  /** `getEmployeeById`: the row stored under `id`, or `null`. */
  function FindById(t: Table, id: string): (r: Option<Employee>)
    requires WellKeyed(t)
    ensures r.Some? <==> id in t
    ensures r.Some? ==> r.value.id == id && t[id] == r.value
  {
    if id in t then Some(t[id]) else None
  }

  /** The table after a service call, and what the call returned or threw. */
  datatype Step<T> = Step(table: Table, result: Result<T, ServiceError>)

  /**
   * `createEmployee`: a duplicate email throws and writes nothing; otherwise
   * exactly one row is added, carrying the given name, email and age, the
   * fresh id `newId` and the creation instant `now` as both timestamps.
   */
  function CreateStep(t: Table, name: string, email: string, age: int, newId: string, now: int): (s: Step<Employee>)
    requires WellKeyed(t) && newId !in t
    ensures WellKeyed(s.table)
    ensures s.result == Failure(DuplicateEmail) <==> EmailTaken(t, email)
    ensures s.result.Failure? ==> s.table == t
    ensures s.result.Success? ==>
      && s.result.value == Employee(newId, name, email, age, now, now)
      && s.table == t[newId := s.result.value]
      && s.table.Keys == t.Keys + {newId}
      && |s.table| == |t| + 1
  {
    if EmailTaken(t, email) then Step(t, Failure(DuplicateEmail))
    else
      var e := Employee(newId, name, email, age, now, now);
      Step(t[newId := e], Success(e))
  }

  /**
   * The optimistic-lock test: the instant the client presents (`None` when
   * its `updated_at` is not a valid date, whose time is NaN) equals the
   * stored `updated_at` to the millisecond.
   */
  predicate VersionMatches(presented: Option<int>, stored: Employee)
    ensures presented.None? ==> !VersionMatches(presented, stored)
    ensures presented.Some? ==> (VersionMatches(presented, stored) <==> presented.value == stored.updatedAt)
  {
    presented == Some(stored.updatedAt)
  }

  /**
   * `updateEmployee`: a missing id throws "not found", a stale version throws
   * "data has changed", and in both cases nothing is written. Otherwise only
   * that row's name, email and age change, its `updated_at` becomes the
   * database's write instant `now`, and every other row is untouched.
   */
  function UpdateStep(t: Table, id: string, name: string, email: string, age: int, presented: Option<int>, now: int): (s: Step<Employee>)
    requires WellKeyed(t)
    ensures WellKeyed(s.table)
    ensures s.result == Failure(NotFound) <==> id !in t
    ensures s.result == Failure(StaleData) <==> id in t && !VersionMatches(presented, t[id])
    ensures s.result.Failure? ==> s.table == t
    ensures s.result.Success? ==>
      && id in t
      && s.result.value == t[id].(name := name, email := email, age := age, updatedAt := now)
      && s.result.value.id == id && s.result.value.createdAt == t[id].createdAt
      && s.table.Keys == t.Keys
      && s.table[id] == s.result.value
      && forall other :: other in t && other != id ==> s.table[other] == t[other]
  {
    if id !in t then Step(t, Failure(NotFound))
    else if !VersionMatches(presented, t[id]) then Step(t, Failure(StaleData))
    else
      var e := t[id].(name := name, email := email, age := age, updatedAt := now);
      Step(t[id := e], Success(e))
  }

  /**
   * `deleteEmployee`: the same two checks as update, then only that row is
   * removed.
   */
  function DeleteStep(t: Table, id: string, presented: Option<int>): (s: Step<()>)
    requires WellKeyed(t)
    ensures WellKeyed(s.table)
    ensures s.result == Failure(NotFound) <==> id !in t
    ensures s.result == Failure(StaleData) <==> id in t && !VersionMatches(presented, t[id])
    ensures s.result.Failure? ==> s.table == t
    ensures s.result.Success? ==>
      && s.table == t - {id}
      && id !in s.table
      && |s.table| == |t| - 1
  {
    if id !in t then Step(t, Failure(NotFound))
    else if !VersionMatches(presented, t[id]) then Step(t, Failure(StaleData))
    else Step(t - {id}, Success(()))
  }

  /** Once a create succeeds, creating again with the same email is refused. */
  lemma CreateThenDuplicate(t: Table, name: string, email: string, age: int, newId: string, now: int,
                            name': string, age': int, newId': string, now': int)
    requires WellKeyed(t) && newId !in t
    requires CreateStep(t, name, email, age, newId, now).result.Success?
    requires newId' !in CreateStep(t, name, email, age, newId, now).table
    ensures CreateStep(CreateStep(t, name, email, age, newId, now).table, name', email, age', newId', now').result
            == Failure(DuplicateEmail)
  {
    var t1 := CreateStep(t, name, email, age, newId, now).table;
    assert t1[newId].email == email;
  }

  /**
   * Once an update succeeds with a write instant different from the old
   * version, the old version is stale: repeating the update fails and writes
   * nothing.
   */
  lemma UpdateThenStale(t: Table, id: string, name: string, email: string, age: int, presented: Option<int>, now: int,
                        name': string, email': string, age': int, now': int)
    requires WellKeyed(t)
    requires UpdateStep(t, id, name, email, age, presented, now).result.Success?
    requires presented != Some(now)
    ensures var t1 := UpdateStep(t, id, name, email, age, presented, now).table;
            UpdateStep(t1, id, name', email', age', presented, now') == Step(t1, Failure(StaleData))
  {
  }

  /**
   * Deleting is final: after a successful delete, a second delete of the same
   * id fails with "not found", whatever version it presents, never with
   * "data has changed".
   */
  lemma DeleteTwice(t: Table, id: string, presented: Option<int>, presented': Option<int>)
    requires WellKeyed(t)
    requires DeleteStep(t, id, presented).result.Success?
    ensures var t1 := DeleteStep(t, id, presented).table;
            DeleteStep(t1, id, presented') == Step(t1, Failure(NotFound))
  {
  }

  /** The rows of the table that pass the filter (as a set of rows). */
  function Matching(t: Table, f: Filter): set<Employee> {
    RowsAmong(t, f, t.Keys)
  }

  /** One step of a scan: visiting a new id adds its row exactly when it matches. */
  lemma ScanStep(t: Table, f: Filter, seen: set<string>, id: string, s: seq<Employee>)
    requires WellKeyed(t) && id in t && id !in seen
    requires multiset(s) == multiset(RowsAmong(t, f, seen))
    ensures Matches(t[id], f) ==> multiset(s + [t[id]]) == multiset(RowsAmong(t, f, seen + {id}))
    ensures !Matches(t[id], f) ==> multiset(s) == multiset(RowsAmong(t, f, seen + {id}))
  {
    if Matches(t[id], f) {
      RowsAmongAddMatch(t, f, seen, id);
    } else {
      RowsAmongAddMiss(t, f, seen, id);
    }
  }

  /**
   * What `findMany` may return before paging: every matching row exactly once,
   * in the order the key list asks for. Rows the keys do not tell apart may
   * come in any order, as in the database.
   */
  predicate IsListing(t: Table, f: Filter, keys: seq<SortKey>, s: seq<Employee>) {
    && multiset(s) == multiset(Matching(t, f))
    && SortedBy(s, keys)
  }

  /** `skip` and `take` applied to a listing. */
  function Window(s: seq<Employee>, skip: nat, take: nat): (r: seq<Employee>)
    ensures |r| == (if skip >= |s| then 0 else if skip + take <= |s| then take else |s| - skip)
    ensures forall i :: 0 <= i < |r| ==> r[i] == s[skip + i]
  {
    if skip >= |s| then [] else s[skip..if skip + take <= |s| then skip + take else |s|]
  }

  /**
   * A listing holds exactly `getTotalEmployees` rows, each one stored and
   * matching the filter, and any earlier row is in order with any later one.
   */
  lemma ListingSize(t: Table, f: Filter, keys: seq<SortKey>, s: seq<Employee>)
    requires WellKeyed(t) && IsListing(t, f, keys, s)
    ensures |s| == CountMatching(t, f)
    ensures forall i :: 0 <= i < |s| ==> s[i].id in t && t[s[i].id] == s[i] && Matches(s[i], f)
    ensures forall i, j :: 0 <= i < j < |s| ==> InOrder(s[i], s[j], keys)
  {
    CountIsRows(t, f);
    SortedAllPairs(s, keys);
    assert |multiset(s)| == |multiset(Matching(t, f))|;
    forall i | 0 <= i < |s|
      ensures s[i].id in t && t[s[i].id] == s[i] && Matches(s[i], f)
    {
      assert s[i] in multiset(s);
      assert s[i] in Matching(t, f);
    }
  }

  /** The employee table: the service's only state. */
  class EmployeeTable {
    var rows: Table

    ghost predicate Valid()
      reads this
    {
      WellKeyed(rows)
    }

    constructor ()
      ensures Valid() && rows == map[]
    {
      rows := map[];
    }

    /** `createEmployee`: look up the email, refuse a duplicate, then insert. */
    method CreateEmployee(name: string, email: string, age: int, newId: string, now: int)
      returns (r: Result<Employee, ServiceError>)
      requires Valid() && newId !in rows
      modifies this
      ensures Valid()
      ensures Step(rows, r) == CreateStep(old(rows), name, email, age, newId, now)
    {
      if EmailTaken(rows, email) {
        return Failure(DuplicateEmail);
      }
      var e := Employee(newId, name, email, age, now, now);
      rows := rows[newId := e];
      r := Success(e);
    }

    /** `getEmployeeById`. */
    method GetEmployeeById(id: string) returns (r: Option<Employee>)
      requires Valid()
      ensures r == FindById(rows, id)
    {
      r := if id in rows then Some(rows[id]) else None;
    }

    /** `updateEmployee`: look up, compare versions, then write name, email and age. */
    method UpdateEmployee(id: string, name: string, email: string, age: int, presented: Option<int>, now: int)
      returns (r: Result<Employee, ServiceError>)
      requires Valid()
      modifies this
      ensures Valid()
      ensures Step(rows, r) == UpdateStep(old(rows), id, name, email, age, presented, now)
    {
      if id !in rows {
        return Failure(NotFound);
      }
      var existing := rows[id];
      if presented != Some(existing.updatedAt) {
        return Failure(StaleData);
      }
      var e := existing.(name := name, email := email, age := age, updatedAt := now);
      rows := rows[id := e];
      r := Success(e);
    }

    /** `deleteEmployee`: look up, compare versions, then remove the row. */
    method DeleteEmployee(id: string, presented: Option<int>) returns (r: Result<(), ServiceError>)
      requires Valid()
      modifies this
      ensures Valid()
      ensures Step(rows, r) == DeleteStep(old(rows), id, presented)
    {
      if id !in rows {
        return Failure(NotFound);
      }
      if presented != Some(rows[id].updatedAt) {
        return Failure(StaleData);
      }
      rows := rows - {id};
      r := Success(());
    }

    /** `getTotalEmployees`: the count under the same filter the list uses. */
    function TotalEmployees(f: Filter): (n: nat)
      reads this
      ensures n == CountMatching(rows, f)
      ensures n <= |rows|
    {
      CountMatching(rows, f)
    }

    /**
     * The rows that pass the filter, in the order the table hands them out
     * (which the source leaves unspecified).
     */
    method ScanMatching(f: Filter) returns (s: seq<Employee>)
      requires Valid()
      ensures multiset(s) == multiset(Matching(rows, f))
    {
      var t := rows;
      s := [];
      var remaining := t.Keys;
      while remaining != {}
        invariant remaining <= t.Keys
        invariant multiset(s) == multiset(RowsAmong(t, f, t.Keys - remaining))
        decreases |remaining|
      {
        var id :| id in remaining;
        ScanStep(t, f, t.Keys - remaining, id, s);
        if Matches(t[id], f) {
          s := s + [t[id]];
        }
        assert t.Keys - (remaining - {id}) == (t.Keys - remaining) + {id};
        remaining := remaining - {id};
      }
    }

    /**
     * `getEmployees`: normalise the sort keys, select the matching rows, order
     * them, then skip `skip` rows and take at most `take`.
     */
    method GetEmployees(f: Filter, sortFields: seq<string>, sortOrders: seq<string>, skip: nat, take: nat)
      returns (page: seq<Employee>, ghost listing: seq<Employee>)
      requires Valid()
      ensures IsListing(rows, f, OrderBy(sortFields, sortOrders), listing)
      ensures page == Window(listing, skip, take)
      ensures |listing| == CountMatching(rows, f)
    {
      var orderBy := OrderBy(sortFields, sortOrders);
      var matching := ScanMatching(f);
      var ordered := SortRows(matching, orderBy);
      page := Window(ordered, skip, take);
      listing := ordered;
      ListingSize(rows, f, orderBy, listing);
    }
  }
}

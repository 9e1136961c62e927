/**
 * The `orderBy` pipeline of `getEmployees`
 * (Problem5/src/services/employee.service.ts): requested sort fields are
 * paired by position with requested directions, fields off the allow-list are
 * dropped, and any direction other than "desc" becomes "asc". The module also
 * gives the ordering such a key list asks of the table (a reference for the
 * database's ORDER BY).
 */
module SortKeys {
  import opened Wrappers
  import opened Employees

  datatype SortField = EmployeeName | EmployeeEmail | EmployeeAge | CreatedAt
  datatype Direction = Asc | Desc
  datatype SortKey = SortKey(field: SortField, direction: Direction)

  /** `validSortFields`: the only column names a client may sort by. */
  const VALID_SORT_FIELDS: seq<string> := ["employee_name", "employee_email", "employee_age", "created_at"]

  /** The column name a sort field stands for. */
  function FieldName(f: SortField): string {
    match f
    case EmployeeName => "employee_name"
    case EmployeeEmail => "employee_email"
    case EmployeeAge => "employee_age"
    case CreatedAt => "created_at"
  }

  /** `validSortFields.includes(name)`, returning the field the name denotes. */
  function AllowedField(name: string): (r: Option<SortField>)
    ensures r.Some? <==> name in VALID_SORT_FIELDS
    ensures r.Some? ==> FieldName(r.value) == name
  {
    if name == "employee_name" then Some(EmployeeName)
    else if name == "employee_email" then Some(EmployeeEmail)
    else if name == "employee_age" then Some(EmployeeAge)
    else if name == "created_at" then Some(CreatedAt)
    else None
  }

  /**
   * `sortOrders[index] === "desc" ? "desc" : "asc"`: an index past the end
   * reads `undefined` and so gives "asc".
   */
  function DirectionAt(orders: seq<string>, i: nat): (d: Direction)
    ensures d == Desc <==> i < |orders| && orders[i] == "desc"
  {
    if i < |orders| && orders[i] == "desc" then Desc else Asc
  }

  /** The key the `map` step builds for a field at position `i`, or `undefined`. */
  function KeyAt(field: string, orders: seq<string>, i: nat): Option<SortKey> {
    match AllowedField(field)
    case None => None
    case Some(f) => Some(SortKey(f, DirectionAt(orders, i)))
  }

  /** The `map` step over all requested fields. */
  function Tagged(fields: seq<string>, orders: seq<string>): (r: seq<Option<SortKey>>)
    ensures |r| == |fields|
    ensures forall i :: 0 <= i < |fields| ==> r[i] == KeyAt(fields[i], orders, i)
  {
    seq(|fields|, i requires 0 <= i < |fields| => KeyAt(fields[i], orders, i))
  }

  /** The `filter` step: drops the `undefined` entries, keeping the rest in order. */
  function Defined(s: seq<Option<SortKey>>): (r: seq<SortKey>)
    ensures |r| <= |s|
    ensures forall k :: k in r ==> Some(k) in s
    decreases |s|
  {
    if s == [] then []
    else (if s[0].Some? then [s[0].value] else []) + Defined(s[1..])
  }

  /** The whole `orderBy` construction. */
  function OrderBy(fields: seq<string>, orders: seq<string>): (keys: seq<SortKey>)
    ensures |keys| <= |fields|
    ensures forall k :: k in keys ==> FieldName(k.field) in fields
  {
    var keys := Defined(Tagged(fields, orders));
    assert forall k :: k in keys ==> FieldName(k.field) in fields by {
      forall k | k in keys ensures FieldName(k.field) in fields {
        var i :| 0 <= i < |fields| && Tagged(fields, orders)[i] == Some(k);
        assert fields[i] == FieldName(k.field);
      }
    }
    keys
  }

  lemma {:induction false} DefinedAppend(s: seq<Option<SortKey>>, x: Option<SortKey>)
    ensures Defined(s + [x]) == Defined(s) + (if x.Some? then [x.value] else [])
    decreases |s|
  {
    if s != [] {
      DefinedAppend(s[1..], x);
      assert (s + [x])[1..] == s[1..] + [x];
    }
  }

  /**
   * Appending a requested field appends its key, with the direction at its
   * own position, exactly when the field is allowed. With `OrderBy([], o) ==
   * []` this determines the key list: keys keep the requested order.
   */
  lemma OrderByAppend(fields: seq<string>, field: string, orders: seq<string>)
    ensures OrderBy([], orders) == []
    ensures OrderBy(fields + [field], orders) ==
      OrderBy(fields, orders) +
      (if field in VALID_SORT_FIELDS then [SortKey(AllowedField(field).value, DirectionAt(orders, |fields|))] else [])
  {
    assert Tagged(fields + [field], orders) == Tagged(fields, orders) + [KeyAt(field, orders, |fields|)];
    DefinedAppend(Tagged(fields, orders), KeyAt(field, orders, |fields|));
  }

  lemma {:induction false} DefinedAllSome(s: seq<Option<SortKey>>)
    requires forall i :: 0 <= i < |s| ==> s[i].Some?
    ensures |Defined(s)| == |s|
    ensures forall i :: 0 <= i < |s| ==> Defined(s)[i] == s[i].value
    decreases |s|
  {
    if s != [] {
      DefinedAllSome(s[1..]);
    }
  }

  /** When every requested field is allowed, key i is field i with direction i. */
  lemma OrderByAllAllowed(fields: seq<string>, orders: seq<string>)
    requires forall i :: 0 <= i < |fields| ==> fields[i] in VALID_SORT_FIELDS
    ensures |OrderBy(fields, orders)| == |fields|
    ensures forall i :: 0 <= i < |fields| ==>
      OrderBy(fields, orders)[i] == SortKey(AllowedField(fields[i]).value, DirectionAt(orders, i))
  {
    DefinedAllSome(Tagged(fields, orders));
  }

  /** When no requested field is allowed, there is no ordering at all. */
  lemma {:induction false} DefinedAllNone(s: seq<Option<SortKey>>)
    requires forall i :: 0 <= i < |s| ==> s[i].None?
    ensures Defined(s) == []
    decreases |s|
  {
    if s != [] {
      DefinedAllNone(s[1..]);
    }
  }

  lemma OrderByNoneAllowed(fields: seq<string>, orders: seq<string>)
    requires forall i :: 0 <= i < |fields| ==> fields[i] !in VALID_SORT_FIELDS
    ensures OrderBy(fields, orders) == []
  {
    DefinedAllNone(Tagged(fields, orders));
  }

  /** An unknown field is dropped rather than rejected: ["employee_age", "bogus_field"] sorts by age only. */
  lemma UnknownFieldDropped()
    ensures OrderBy(["employee_age", "bogus_field"], ["desc", "asc"]) == [SortKey(EmployeeAge, Desc)]
  {
    OrderByAppend(["employee_age"], "bogus_field", ["desc", "asc"]);
    OrderByAppend([], "employee_age", ["desc", "asc"]);
    assert ["employee_age"] + ["bogus_field"] == ["employee_age", "bogus_field"];
  }

  /** Code-unit lexicographic comparison: negative, zero or positive. */
  function CompareStrings(a: string, b: string): (c: int)
    ensures -1 <= c <= 1
    ensures c == 0 <==> a == b
    decreases |a|
  {
    if a == [] && b == [] then 0
    else if a == [] then -1
    else if b == [] then 1
    else if a[0] < b[0] then -1
    else if a[0] > b[0] then 1
    else
      var c := CompareStrings(a[1..], b[1..]);
      assert c == 0 ==> a == [a[0]] + a[1..] == [b[0]] + b[1..] == b;
      c
  }

  function CompareInts(a: int, b: int): int {
    if a < b then -1 else if a > b then 1 else 0
  }

  /** Ascending comparison of two rows on one column. */
  function CompareOn(x: Employee, y: Employee, f: SortField): int {
    match f
    case EmployeeName => CompareStrings(x.name, y.name)
    case EmployeeEmail => CompareStrings(x.email, y.email)
    case EmployeeAge => CompareInts(x.age, y.age)
    case CreatedAt => CompareInts(x.createdAt, y.createdAt)
  }

  /** The order a key list asks for: the first key that tells the rows apart decides. */
  function CompareByKeys(x: Employee, y: Employee, keys: seq<SortKey>): int
    decreases |keys|
  {
    if keys == [] then 0
    else
      var c := CompareOn(x, y, keys[0].field);
      var directed := if keys[0].direction == Desc then -c else c;
      if directed != 0 then directed else CompareByKeys(x, y, keys[1..])
  }

  lemma {:induction false} CompareStringsAntisymmetric(a: string, b: string)
    ensures CompareStrings(a, b) == -CompareStrings(b, a)
    decreases |a|
  {
    if a != [] && b != [] && a[0] == b[0] {
      CompareStringsAntisymmetric(a[1..], b[1..]);
    }
  }

  /** Swapping the rows negates the comparison, so any two rows are ordered one way or the other. */
  lemma {:induction false} CompareByKeysAntisymmetric(x: Employee, y: Employee, keys: seq<SortKey>)
    ensures CompareByKeys(x, y, keys) == -CompareByKeys(y, x, keys)
    decreases |keys|
  {
    if keys != [] {
      CompareStringsAntisymmetric(x.name, y.name);
      CompareStringsAntisymmetric(x.email, y.email);
      CompareByKeysAntisymmetric(x, y, keys[1..]);
    }
  }

  predicate InOrder(x: Employee, y: Employee, keys: seq<SortKey>) {
    CompareByKeys(x, y, keys) <= 0
  }

  /** Every row is in order with its successor. */
  predicate SortedBy(s: seq<Employee>, keys: seq<SortKey>) {
    forall i :: 0 <= i < |s| - 1 ==> InOrder(s[i], s[i + 1], keys)
  }

  lemma {:induction false} CompareStringsTransitive(a: string, b: string, c: string)
    requires CompareStrings(a, b) <= 0 && CompareStrings(b, c) <= 0
    ensures CompareStrings(a, c) <= 0
    decreases |a|
  {
    if a != [] && b != [] && c != [] && a[0] == b[0] == c[0] {
      CompareStringsTransitive(a[1..], b[1..], c[1..]);
    }
  }

  /** One column's order is transitive, and ties only through ties. */
  lemma CompareOnTransitive(x: Employee, y: Employee, z: Employee, f: SortField)
    requires CompareOn(x, y, f) <= 0 && CompareOn(y, z, f) <= 0
    ensures CompareOn(x, z, f) <= 0
    ensures CompareOn(x, z, f) == 0 ==> CompareOn(x, y, f) == 0 && CompareOn(y, z, f) == 0
  {
    match f
    case EmployeeName =>
      CompareStringsTransitive(x.name, y.name, z.name);
      CompareStringsAntisymmetric(x.name, y.name);
    case EmployeeEmail =>
      CompareStringsTransitive(x.email, y.email, z.email);
      CompareStringsAntisymmetric(x.email, y.email);
    case _ =>
  }

  /** The order a key list asks for is transitive. */
  lemma {:induction false} InOrderTransitive(x: Employee, y: Employee, z: Employee, keys: seq<SortKey>)
    requires InOrder(x, y, keys) && InOrder(y, z, keys)
    ensures InOrder(x, z, keys)
    decreases |keys|
  {
    if keys != [] {
      var f := keys[0].field;
      CompareByKeysAntisymmetric(x, y, keys);
      if keys[0].direction == Asc {
        CompareOnTransitive(x, y, z, f);
      } else {
        CompareStringsAntisymmetric(x.name, y.name);
        CompareStringsAntisymmetric(y.name, z.name);
        CompareStringsAntisymmetric(x.name, z.name);
        CompareStringsAntisymmetric(x.email, y.email);
        CompareStringsAntisymmetric(y.email, z.email);
        CompareStringsAntisymmetric(x.email, z.email);
        CompareOnTransitive(z, y, x, f);
      }
      if CompareOn(x, y, f) == 0 && CompareOn(y, z, f) == 0 {
        InOrderTransitive(x, y, z, keys[1..]);
      }
    }
  }

  /** A list whose neighbours are in order has every pair in order. */
  lemma {:induction false} SortedAllPairs(s: seq<Employee>, keys: seq<SortKey>)
    requires SortedBy(s, keys)
    ensures forall i, j :: 0 <= i < j < |s| ==> InOrder(s[i], s[j], keys)
  {
    forall i, j | 0 <= i < j < |s| ensures InOrder(s[i], s[j], keys) {
      SortedPair(s, keys, i, j);
    }
  }

  lemma {:induction false} SortedPair(s: seq<Employee>, keys: seq<SortKey>, i: nat, j: nat)
    requires SortedBy(s, keys) && i < j < |s|
    ensures InOrder(s[i], s[j], keys)
    decreases j - i
  {
    if i + 1 < j {
      SortedPair(s, keys, i, j - 1);
      InOrderTransitive(s[i], s[j - 1], s[j], keys);
    }
  }

  /** Inserting one row into an ordered list. */
  function Insert(x: Employee, s: seq<Employee>, keys: seq<SortKey>): (r: seq<Employee>)
    requires SortedBy(s, keys)
    ensures SortedBy(r, keys)
    ensures multiset(r) == multiset(s) + multiset{x}
    ensures |r| == |s| + 1 && (r[0] == x || (s != [] && r[0] == s[0]))
    decreases |s|
  {
    if s == [] then [x]
    else if InOrder(x, s[0], keys) then [x] + s
    else
      CompareByKeysAntisymmetric(x, s[0], keys);
      var rest := Insert(x, s[1..], keys);
      assert s == [s[0]] + s[1..];
      [s[0]] + rest
  }

  /** The rows in the order the key list asks for: a sorted permutation of the input. */
  function SortRows(s: seq<Employee>, keys: seq<SortKey>): (r: seq<Employee>)
    ensures SortedBy(r, keys)
    ensures multiset(r) == multiset(s)
    decreases |s|
  {
    if s == [] then []
    else
      assert s == [s[0]] + s[1..];
      Insert(s[0], SortRows(s[1..], keys), keys)
  }
}

/**
 * The one entity of the employee API, the table that stores it, and the
 * errors the service throws (Problem5/src/services/employee.service.ts).
 */
module Employees {

  /**
   * A stored row. The id is the server-generated UUID (a string, although the
   * response types declare it as a number); both timestamps are instants in
   * milliseconds, which is the precision the optimistic-lock check compares.
   */
  datatype Employee = Employee(
    id: string,
    name: string,
    email: string,
    age: int,
    createdAt: int,
    updatedAt: int)

  /** The employee table, keyed by id. */
  type Table = map<string, Employee>

  /** Every row is stored under its own id. */
  predicate WellKeyed(t: Table) {
    forall id :: id in t ==> t[id].id == id
  }

  const DUPLICATE_EMAIL_MESSAGE: string := "Employee with this email already exists"
  const NOT_FOUND_MESSAGE: string := "Employee not found"
  const STALE_DATA_MESSAGE: string := "Data has changed, please reload and try again."

  /** The errors the service throws, each carrying the message the controller inspects. */
  datatype ServiceError = DuplicateEmail | NotFound | StaleData {
    function Message(): string {
      match this
      case DuplicateEmail => DUPLICATE_EMAIL_MESSAGE
      case NotFound => NOT_FOUND_MESSAGE
      case StaleData => STALE_DATA_MESSAGE
    }
  }

  /** Distinct errors carry distinct messages, so the controller can tell them apart. */
  lemma MessagesDistinct(a: ServiceError, b: ServiceError)
    ensures a.Message() == b.Message() <==> a == b
  {
    if a != b {
      assert a.Message()[9] != b.Message()[9];
    }
  }
}

/**
 * The response projections of Problem5/src/dtos/employee/response.dto.ts:
 * field-copying views of a stored row in the wire shape.
 */
module ResponseDto {
  import opened Employees

  /** `GetEmployeeResponseDataDTO`: the list and read-by-id view, without `created_at`. */
  datatype GetEmployeeData = GetEmployeeData(id: string, name: string, email: string, age: int, updatedAt: int)

  /** `CreateEmployeeResponseDataDTO`: every stored field. */
  datatype CreateEmployeeData = CreateEmployeeData(
    id: string, name: string, email: string, age: int, updatedAt: int, createdAt: int)

  /** `UpdateEmployeeResponseDataDTO`: the same fields as the create view. */
  datatype UpdateEmployeeData = UpdateEmployeeData(
    id: string, name: string, email: string, age: int, updatedAt: int, createdAt: int)

  function ToGetEmployeeData(e: Employee): (d: GetEmployeeData)
    ensures d.id == e.id && d.name == e.name && d.email == e.email
    ensures d.age == e.age && d.updatedAt == e.updatedAt
  {
    GetEmployeeData(e.id, e.name, e.email, e.age, e.updatedAt)
  }

  function ToCreateEmployeeData(e: Employee): (d: CreateEmployeeData)
    ensures d.id == e.id && d.name == e.name && d.email == e.email
    ensures d.age == e.age && d.updatedAt == e.updatedAt && d.createdAt == e.createdAt
  {
    CreateEmployeeData(e.id, e.name, e.email, e.age, e.updatedAt, e.createdAt)
  }

  function ToUpdateEmployeeData(e: Employee): (d: UpdateEmployeeData)
    ensures d.id == e.id && d.name == e.name && d.email == e.email
    ensures d.age == e.age && d.updatedAt == e.updatedAt && d.createdAt == e.createdAt
  {
    UpdateEmployeeData(e.id, e.name, e.email, e.age, e.updatedAt, e.createdAt)
  }

  /** Reads a row back from the create view. */
  function FromCreateEmployeeData(d: CreateEmployeeData): Employee {
    Employee(d.id, d.name, d.email, d.age, d.createdAt, d.updatedAt)
  }

  /** The create view loses nothing: the stored row can be read back from it. */
  lemma CreateViewRoundTrip(e: Employee)
    ensures FromCreateEmployeeData(ToCreateEmployeeData(e)) == e
  {
  }

  /** The get view does not expose `created_at`: rows differing only there look the same. */
  lemma GetViewHidesCreatedAt(e: Employee, createdAt: int)
    ensures ToGetEmployeeData(e.(createdAt := createdAt)) == ToGetEmployeeData(e)
  {
  }

  /** The get view is the create view with `created_at` dropped. */
  lemma GetViewIsCreateViewWithoutCreatedAt(e: Employee)
    ensures var c := ToCreateEmployeeData(e);
            ToGetEmployeeData(e) == GetEmployeeData(c.id, c.name, c.email, c.age, c.updatedAt)
  {
  }

  /** The update view carries exactly the fields and values of the create view. */
  lemma UpdateViewIsCreateView(e: Employee)
    ensures var u := ToUpdateEmployeeData(e);
            ToCreateEmployeeData(e) == CreateEmployeeData(u.id, u.name, u.email, u.age, u.updatedAt, u.createdAt)
  {
  }
}

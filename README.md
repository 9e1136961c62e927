# sum-to-n and the employee resource manager, in Dafny

This project models two unrelated exercises from one repository and proves
properties of the models.

**Sum of 1..n** (`Problem4`). There are three implementations of the sum 1 + 2 + … + n.
All three use the same range guard:
- a fold over `[1..n]`;
- plain recursion;
- the closed formula `n(n+1)/2`.

The guard rejects `n >= MAX_SAFE_INTEGER` (2^53 − 1) with "number is too large".
It then rejects `n < 0` with "number is negative". JavaScript numbers are
modelled as unbounded integers. The central result is `SumToN.AllAgree`. On every input
the guard accepts, the three variants return the same value, and that value
is the mathematical sum of 1..n. On every other input, all three throw the same error.

**Employee resource manager** (`Problem5`). This is a CRUD service over one
table of employees. The database is replaced by an in-memory table: the class
`EmployeeService.EmployeeTable` with one field, `rows: map<string, Employee>`.
Each service call is one atomic step on that table.

Each mutating call (`createEmployee`, `updateEmployee`, `deleteEmployee`) has a
pure step function (`CreateStep`, `UpdateStep`, `DeleteStep`). The step
function gives the new table and the returned value or thrown error. The
class methods perform the same lookup, check and write in place. Each method
is proved equal to its step function.

The list call has these parts:
- the `orderBy` normalisation: zip the fields with the directions, keep only
  allow-listed fields, and treat anything other than `"desc"` as `"asc"`;
- the substring filters;
- a reference ordering that stands in for the database's ORDER BY;
- the `skip`/`take` window.

The count is proved to equal the number of rows a listing holds. The
controller handlers return a status and a body instead of writing to an
Express response. The response DTOs are pure projections of a stored row.

Places where the code's behaviour is easy to misread (the model follows the code):

- The controller's default `sort_by` is `["employee_id"]`. That field is not
  on the service's allow-list, so a list request without `sort_by` has no
  ordering at all. It is not ordered by id (`EmployeeController.DefaultOrderIsEmpty`).
- `updateEmployee` and `deleteEmployee` throw "Employee not found" for a
  missing id. Their handlers answer that with 500, not 404. Only the
  stale-data message becomes a 409 (`EmployeeController.ErrorStatuses`).
- `getEmployeeById` answers a missing row with 404.
- The create handler also maps the stale-data message to 409. The create
  service call never throws that message.
- Nothing in the code refreshes `updated_at`. The database does that. The
  model takes the write instant `now` as a parameter and stores it. The fact
  that the old version becomes stale is proved only when `now` differs from
  the presented version (`EmployeeService.UpdateThenStale`).
- `total_pages` is `ceil(total / page_size)`. With a page size of 10, that
  gives 0 pages for 0 rows, 1 page for 1 to 10 rows, and 2 pages for 11 rows.
- The test driver's comment at `Problem4/index.ts:19` expects a value from
  `sum_to_n_c(MAX_SAFE_INTEGER)`. The guard rejects that input with "number is too
  large" (`SumToN.EdgeVectors`).

Files:
- `wrappers.dfy`: `Option` and `Result`.
- `sum_to_n.dfy`: the sum-to-n exercise.
- `int_parsing.dfy`: JavaScript's `parseInt(s, 10)`.
- `employees.dfy`: the entity, the table and the service errors.
- `filters.dfy`: the `where` filters and the count.
- `sort_keys.dfy`: `orderBy` and the reference ordering.
- `employee_service.dfy`: the service.
- `response_dto.dfy`: the response projections.
- `employee_controller.dfy`: the handlers, the pagination arithmetic and three
  client scenarios.

## Model

| member | source | states |
|---|---|---|
| `SumToN.Validate` | Problem4/src/sum-to-n.ts:68-75 | The guard passes exactly on 0 <= n < 2^53−1. It reports "too large" exactly when n >= 2^53−1, and "negative" exactly when n < 0. The error's message is "number is too large" or "number is negative" accordingly. |
| `SumToN.SumToNA` | Problem4/src/sum-to-n.ts:14-20 | The fold variant succeeds exactly on accepted inputs. Otherwise it throws the guard's error. |
| `SumToN.SumToNB` | Problem4/src/sum-to-n.ts:35-39 | The recursive variant succeeds exactly on accepted inputs. Every recursive call passes the guard again. Otherwise it throws the guard's error. It terminates because n decreases to 0. |
| `SumToN.SumToNC` | Problem4/src/sum-to-n.ts:54-60 | The formula variant succeeds exactly on accepted inputs. Otherwise it throws the guard's error. |
| `SumToN.FoldIsSum` | Problem4/src/sum-to-n.ts:17 | A left fold with `+` from `acc` equals `acc` plus the mathematical sum of the sequence. |
| `SumToN.ProductIsEven` | Problem4/src/sum-to-n.ts:57 | n(n+1) is always even, so the formula's division is exact. |
| `SumToN.RangeSum` | Problem4/src/sum-to-n.ts:50-57 | The sum of [1..n] is n(n+1)/2. |
| `SumToN.RecursionIsSum` | Problem4/src/sum-to-n.ts:31-38 | On an accepted n, the recursion returns the sum of 1..n. |
| `SumToN.AllAgree` | Problem4/src/sum-to-n.ts:10-57 | The three variants return the same result on every input. On accepted inputs, that result is the sum of 1..n. |
| `SumToN.AgreeOnFormula` | Problem4/src/sum-to-n.ts:54-57 | On an accepted n, every variant returns n(n+1)/2. |
| `SumToN.TestVectorHolds` | Problem4/index.ts:3-7 | 0→0, 1→1, 5→15, 10→55 and 100→5050 hold for every variant. |
| `SumToN.EdgeVectors` | Problem4/index.ts:3-21 | 2^53−11 is accepted. −1 is rejected as negative. 2^53−1 and 2^53 are rejected as too large, even by the formula variant. |
| `IntParsing.TrimStart` | Problem5/src/controllers/employee.controller.ts:19 | Only JavaScript white space is stripped. The result is a suffix of the input and does not start with white space. |
| `IntParsing.DigitPrefix` | Problem5/src/controllers/employee.controller.ts:19 | The result is the longest run of digits at the front of the input. |
| `IntParsing.ParseInt` | Problem5/src/controllers/employee.controller.ts:19-21 | `parseInt(s, 10)` is NaN exactly when no digit follows the white space and the optional sign. Otherwise it is the signed value of the longest digit run. |
| `IntParsing.ParseDecimal` | Problem5/src/controllers/employee.controller.ts:19-20 | Parsing the decimal rendering of any integer returns that integer. |
| `IntParsing.ParseDefaults` | Problem5/src/controllers/employee.controller.ts:51-53 | The query defaults "1" and "10" parse to 1 and 10. |
| `IntParsing.ParseIgnoresSuffix` | Problem5/src/controllers/employee.controller.ts:19 | Any leading white space, then the decimal digits of n, then any suffix that does not start with a digit, parses to n. |
| `IntParsing.ParseTwoDigits` | Problem5/src/controllers/employee.controller.ts:19 | Two digits parse to ten times the first plus the second. |
| `IntParsing.ParseWithSuffix` | Problem5/src/controllers/employee.controller.ts:19 | " 42abc" parses to 42. |
| `IntParsing.ParseNaN` | Problem5/src/controllers/employee.controller.ts:19-21 | "abc", "" and "-" are NaN. |
| `Employees.MessagesDistinct` | Problem5/src/services/employee.service.ts:40-104 | The three service errors have pairwise distinct messages. |
| `Filters.ContainsIffOccurs` | Problem5/src/services/employee.service.ts:68-69 | The substring search succeeds exactly when the needle occurs at some position of the text. |
| `Filters.Matches` | Problem5/src/services/employee.service.ts:67-70 | A row passes exactly when each truthy filter value occurs at some position of the row's name or email, respectively. A missing or empty filter value constrains nothing. |
| `Filters.MatchIds` | Problem5/src/services/employee.service.ts:67-70 | The matching ids are exactly the stored ids whose row passes the name and email filters. |
| `Filters.CountMatching` | Problem5/src/services/employee.service.ts:139-145 | The count is the number of ids the same filter accepts. It never exceeds the table size. |
| `Filters.FalsyFilterCountsAll` | Problem5/src/services/employee.service.ts:142-143 | A missing or empty name and email filter constrains nothing, so the count is the whole table. |
| `Filters.RowsAmongSize` | Problem5/src/services/employee.service.ts:66-70 | In a table keyed by id, the matching rows among a set of ids number exactly the matching ids in it. |
| `Filters.CountIsRows` | Problem5/src/services/employee.service.ts:139-145 | The count equals the number of matching rows. |
| `SortKeys.AllowedField` | Problem5/src/services/employee.service.ts:58-62 | A name is accepted exactly when it is on the four-field allow-list. The accepted field carries that column name. |
| `SortKeys.DirectionAt` | Problem5/src/services/employee.service.ts:62 | The direction is "desc" exactly when the order entry at the same position exists and is "desc". |
| `SortKeys.Tagged` | Problem5/src/services/employee.service.ts:60-63 | The map step yields one entry per requested field. The entry is the key at that position, or undefined. |
| `SortKeys.Defined` | Problem5/src/services/employee.service.ts:64 | The filter step never lengthens the list. It keeps only defined keys. |
| `SortKeys.OrderBy` | Problem5/src/services/employee.service.ts:60-64 | There are never more keys than requested fields. Every key's column was requested. |
| `SortKeys.OrderByAppend` | Problem5/src/services/employee.service.ts:60-64 | Appending a field appends its key exactly when the field is allowed. That key takes the direction at the field's own position, so keys keep the requested order. |
| `SortKeys.OrderByAllAllowed` | Problem5/src/services/employee.service.ts:60-64 | When every field is allowed, key i is field i with direction i. |
| `SortKeys.OrderByNoneAllowed` | Problem5/src/services/employee.service.ts:60-64 | When no field is allowed, there is no ordering. |
| `SortKeys.UnknownFieldDropped` | Problem5/src/services/employee.service.ts:58-64 | `["employee_age","bogus_field"]` with `["desc","asc"]` sorts by age descending only. |
| `SortKeys.CompareStrings` | Problem5/src/services/employee.service.ts:71 | The string comparison is −1, 0 or 1, and 0 exactly for equal strings. |
| `SortKeys.CompareByKeysAntisymmetric` | Problem5/src/services/employee.service.ts:71 | Swapping two rows negates their comparison, so any two rows are ordered one way or the other. |
| `SortKeys.InOrderTransitive` | Problem5/src/services/employee.service.ts:71 | The order a key list asks for is transitive, for any mix of directions. |
| `SortKeys.SortedAllPairs` | Problem5/src/services/employee.service.ts:71 | In a list whose neighbouring rows are in order, every earlier row is in order with every later row. |
| `SortKeys.Insert` | Problem5/src/services/employee.service.ts:71 | Inserting into an ordered list keeps it ordered and adds exactly that row. |
| `SortKeys.SortRows` | Problem5/src/services/employee.service.ts:66-74 | The result is ordered by the keys and is a permutation of the input. |
| `EmployeeService.ParseEmployeeId` | Problem5/src/services/employee.service.ts:13-24 | The id is returned unchanged exactly when it is a UUID. Otherwise the result is null. |
| `EmployeeService.ParseEmployeeIdExamples` | Problem5/src/services/employee.service.ts:15 | A sample UUID is accepted. "42" and a hyphen-misplaced string are refused. |
| `EmployeeService.EmailTaken` | Problem5/src/services/employee.service.ts:35-39 | The email is taken exactly when it is among the emails stored in the table. |
| `EmployeeService.VersionMatches` | Problem5/src/services/employee.service.ts:103 | An invalid date (NaN) never matches. A valid one matches exactly the stored `updated_at`. |
| `EmployeeService.FindById` | Problem5/src/services/employee.service.ts:82-84 | Returns the row stored under the id, or null exactly when the id is absent. |
| `EmployeeService.CreateStep` | Problem5/src/services/employee.service.ts:34-45 | Fails with the duplicate-email error exactly when the email is taken, and then writes nothing. Otherwise it adds exactly one row with the given name, email and age, the fresh id, and equal created/updated instants. |
| `EmployeeService.UpdateStep` | Problem5/src/services/employee.service.ts:96-111 | Not-found exactly when the id is absent. Stale exactly when the presented instant differs from the stored `updated_at`. Both failures leave the table unchanged. On success, only that row's name, email, age and `updated_at` change, and every other row is untouched. |
| `EmployeeService.DeleteStep` | Problem5/src/services/employee.service.ts:119-131 | Same not-found and stale conditions as update, with the table unchanged on failure. On success, exactly that id is removed. |
| `EmployeeService.CreateThenDuplicate` | Problem5/src/services/employee.service.ts:35-41 | After a successful create, a second create with the same email fails as a duplicate. |
| `EmployeeService.UpdateThenStale` | Problem5/src/services/employee.service.ts:103-110 | After a successful update whose write instant differs from the presented version, presenting that version again fails as stale and writes nothing. |
| `EmployeeService.DeleteTwice` | Problem5/src/services/employee.service.ts:119-130 | After a successful delete, deleting the same id again fails with not-found, never stale, whatever version is presented. |
| `EmployeeService.Window` | Problem5/src/services/employee.service.ts:72-73 | The page is the listing from position `skip` on, at most `take` rows long. |
| `EmployeeService.ListingSize` | Problem5/src/services/employee.service.ts:57-74 | A listing holds exactly as many rows as the count. Each row is stored and passes the filter. Every earlier row is in order with every later one. |
| `EmployeeService.EmployeeTable.CreateEmployee` | Problem5/src/services/employee.service.ts:34-46 | The new table and result are those of `CreateStep`, and the table stays keyed by id. |
| `EmployeeService.EmployeeTable.GetEmployeeById` | Problem5/src/services/employee.service.ts:82-84 | Returns the row under the id, or null. |
| `EmployeeService.EmployeeTable.UpdateEmployee` | Problem5/src/services/employee.service.ts:96-111 | The new table and result are those of `UpdateStep`. |
| `EmployeeService.EmployeeTable.DeleteEmployee` | Problem5/src/services/employee.service.ts:119-131 | The new table and result are those of `DeleteStep`. |
| `EmployeeService.EmployeeTable.TotalEmployees` | Problem5/src/services/employee.service.ts:139-146 | The total is the count under the same filter the list uses. It does not depend on skip or take, and never exceeds the table size. |
| `EmployeeService.EmployeeTable.ScanMatching` | Problem5/src/services/employee.service.ts:66-70 | Returns every matching row exactly once, in an unspecified order. |
| `EmployeeService.EmployeeTable.GetEmployees` | Problem5/src/services/employee.service.ts:57-75 | The page is the skip/take window of an ordered listing of the matching rows under the normalised keys. The listing has as many rows as the count. |
| `ResponseDto.ToGetEmployeeData` | Problem5/src/dtos/employee/response.dto.ts:64-70 | Copies id, name, email, age and `updated_at` unchanged. |
| `ResponseDto.ToCreateEmployeeData` | Problem5/src/dtos/employee/response.dto.ts:109-116 | Copies the same five fields and `created_at` unchanged. |
| `ResponseDto.ToUpdateEmployeeData` | Problem5/src/dtos/employee/response.dto.ts:152-159 | Copies the same six fields unchanged. |
| `ResponseDto.CreateViewRoundTrip` | Problem5/src/dtos/employee/response.dto.ts:109-116 | The create view loses nothing: the stored row can be read back from it. |
| `ResponseDto.GetViewHidesCreatedAt` | Problem5/src/dtos/employee/response.dto.ts:38-71 | Rows that differ only in `created_at` have the same get view. |
| `ResponseDto.GetViewIsCreateViewWithoutCreatedAt` | Problem5/src/dtos/employee/response.dto.ts:64-70 | The get view is the create view with `created_at` dropped. |
| `ResponseDto.UpdateViewIsCreateView` | Problem5/src/dtos/employee/response.dto.ts:152-159 | The update view has exactly the fields and values of the create view. |
| `EmployeeController.AsList` | Problem5/src/controllers/employee.controller.ts:51-58 | A missing query value becomes the default list. A single value becomes a one-element list. A repeated value is passed through unchanged. |
| `EmployeeController.DefaultOrderIsEmpty` | Problem5/src/controllers/employee.controller.ts:51-58 | Without `sort_by` and `order`, the default `["employee_id"]` is dropped, so there is no ordering. |
| `EmployeeController.ScalarSortWrapped` | Problem5/src/controllers/employee.controller.ts:57-58 | A single `sort_by` and a single `order` are wrapped into one-element lists. |
| `EmployeeController.DefaultPaging` | Problem5/src/controllers/employee.controller.ts:51-53 | Without `page` and `page_size`, the request asks for page 1 of 10 rows. |
| `EmployeeController.SkipFor` | Problem5/src/controllers/employee.controller.ts:59 | `skip` is a whole number of pages: exactly page − 1 pages of `page_size` rows. |
| `EmployeeController.TotalPages` | Problem5/src/controllers/employee.controller.ts:73 | `total_pages` is the smallest page count whose pages hold all rows. It is 0 exactly when there are no rows. |
| `EmployeeController.TotalPagesExamples` | Problem5/src/controllers/employee.controller.ts:73 | With a page size of 10: 0 rows give 0 pages, 1–10 rows give 1 page, 11 rows give 2 pages. |
| `EmployeeController.PageOfRow` | Problem5/src/controllers/employee.controller.ts:59-73 | Row i lies in the skip/take window of page i / page_size + 1, and that page is within `total_pages`. |
| `EmployeeController.CreateFailureStatus` | Problem5/src/controllers/employee.controller.ts:34-39 | On create, the status is 409 exactly for the stale-data or duplicate-email message. Every other message gives 500. |
| `EmployeeController.MutationFailureStatus` | Problem5/src/controllers/employee.controller.ts:135-139 | On update and delete, the status is 409 exactly for the stale-data message. Every other message gives 500. |
| `EmployeeController.CreateReply` | Problem5/src/controllers/employee.controller.ts:28-39 | A successful create answers 201 "Employee created successfully" with the create view. A failure is refused with the error's message: 409 for every service error except not-found, which gives 500. |
| `EmployeeController.UpdateReply` | Problem5/src/controllers/employee.controller.ts:129-139 | A successful update answers 200 "Employee updated successfully" with the update view. A failure is refused with the error's message: 409 exactly for stale data, otherwise 500. |
| `EmployeeController.DeleteReply` | Problem5/src/controllers/employee.controller.ts:157-163 | A successful delete answers 200 "Employee deleted successfully" with no data. A failure is refused with the error's message: 409 exactly for stale data, otherwise 500. |
| `EmployeeController.ErrorStatuses` | Problem5/src/controllers/employee.controller.ts:134-163 | A duplicate email and stale data are 409. "Employee not found" from update or delete is 500. |
| `EmployeeController.Views` | Problem5/src/controllers/employee.controller.ts:68 | Each listed row is given in its get view, in order. |
| `EmployeeController.CreateEmployeeHandler` | Problem5/src/controllers/employee.controller.ts:16-41 | An unparsable age answers 400 "Invalid employee age" and never reaches the service. Otherwise the table follows `CreateStep`: success is 201, and errors follow the create status mapping. |
| `EmployeeController.GetEmployeesHandler` | Problem5/src/controllers/employee.controller.ts:49-80 | Answers 200 with the get views of the skip/take window of an ordered listing under the defaulted, wrapped and normalised keys. The pagination carries page, page size, the filtered count and the ceiling page count. |
| `EmployeeController.GetEmployeeByIdHandler` | Problem5/src/controllers/employee.controller.ts:87-106 | A malformed id gives 400 and stops. An absent row gives 404. Otherwise the answer is 200 with its get view. |
| `EmployeeController.UpdateEmployeeHandler` | Problem5/src/controllers/employee.controller.ts:114-141 | The id check and then the age check answer 400 before the service runs. Otherwise the table follows `UpdateStep`. A missing id answers 500 "Employee not found". |
| `EmployeeController.DeleteEmployeeHandler` | Problem5/src/controllers/employee.controller.ts:149-165 | The id check answers 400. Otherwise the table follows `DeleteStep`. A missing id answers 500 "Employee not found". |
| `EmployeeController.StaleUpdateScenario` | Problem5/src/controllers/employee.controller.ts:114-141 | For any UUID, name, email and parsable ages: create gives 201. The update presenting the version just read gives 200. Repeating it with that now-stale version gives 409. |
| `EmployeeController.DeleteTwiceScenario` | Problem5/src/controllers/employee.controller.ts:149-165 | The first delete answers 200. The second answers 500 "Employee not found". |
| `EmployeeController.FilteredListScenario` | Problem5/src/controllers/employee.controller.ts:49-75 | Two "An" matches, one per page: the page holds one row, and the pagination reports 2 rows on 2 pages. |

## Left out

- Express wiring (`Problem5/src/routes/employee.route.ts`, `Problem5/src/index.ts`) and `res.status().json()` are not modelled. Each handler returns a `Reply` value instead.
- The Prisma client and `Problem5/src/ultils/prisma.util.ts` are replaced by the in-memory table.
- SQL collation and the case sensitivity of `contains` are not modelled. The model compares and searches strings by Unicode code point.
- SortKeys.CompareStrings: orders strings by Unicode code point, not by the UTF-16 code units of JavaScript strings. The two orders differ for characters outside the Basic Multilingual Plane: U+1F600 comes after U+FF5E by code point but before it by code unit.
- The database's unique constraint on email is not modelled. `updateEmployee` has no duplicate-email check of its own, so the model lets an update give two rows the same email. The database would reject that with an error, which the handlers answer with 500.
- Database-level failures, and the 500 answers they produce in every handler's `catch`, are not modelled.
- `Problem5/prisma/seed.ts` is left out because it inserts random data.
- The request DTOs (`Problem5/src/dtos/employee/request.dto.ts`, `Problem5/src/dtos/index.ts`) are not modelled because they only declare types. Request bodies are assumed to carry every field as a string, and ids are modelled as strings.
- The console driver `Problem4/index.ts` is used only for its test vectors.
- JavaScript floating point is not modelled: precision loss in `n*(n+1)/2` above 2^53, non-integer `n`, "Invalid array length" and stack overflow for large `n`.
- EmployeeController.GetEmployeesHandler: requires `page` and `page_size` to parse to integers >= 1. A NaN, zero or negative page and `Math.ceil` with `page_size = 0` are not modelled.
- The check-then-act races between lookup and write in create, update and delete are not modelled. Each service call is one atomic step.
- `new Date(updated_at).getTime()` is not modelled. The service and handlers take the converted instant as `Option<int>`, with `None` for an invalid date (NaN never matches). Timestamps are integer milliseconds.
- EmployeeService.IsUuid: checks the 8-4-4-4-12 hexadecimal layout of section 3 of RFC 4122 only. It does not check the version and variant digits that the `uuid` library's `validate` also checks, or its nil and max UUIDs.
- IntParsing.ParseInt: does not round very long digit strings to the nearest double.
- Server-generated values are parameters: the fresh id (`newId`, required to be unused) and the write instant (`now`). The refresh of `updated_at` on update is what the database does. It is an assumption of the model, not a proved property.
- The order in which the database returns rows that the sort keys do not distinguish is left open. The model's scan of the table picks rows in an unspecified order.

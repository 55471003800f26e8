# HRMS Lite back end in Dafny

HRMS Lite is a small HR service: a FastAPI application over a SQLite file
with two tables. `employees` holds one row per employee. Each row has an
internal `id`, a unique business `employee_id`, a name, a unique email, a
department and a creation time. `attendance` holds at most one row per
employee and day, marked `Present` or `Absent`. This project models the
handlers of `backend/main.py` and proves what they promise.

Modules, one file each:

- `Text` (text.dfy): Python's `str.strip` and `str.lower`, SQLite's
  `LOWER()`, and the BINARY collation order that `ORDER BY` uses on text.
- `Seqs` (seqs.dfy): `Option`, a first-match search, and key uniqueness
  over sequences.
- `Tables` (tables.dfy): the two row types, the handler results, and the
  schema constraints of `init_db` as the predicate `Consistent`. It also
  holds the lookups the handlers' `SELECT … WHERE` statements perform and
  the row removals.
- `Requests` (requests.dfy): the Pydantic request bodies and their
  validation, including the `not_empty` validator.
- `Sorting` (sorting.dfy): `ORDER BY … DESC` as an insertion sort, proved to
  be a sorted permutation.
- `Reports` (reports.dfy): the read endpoints as query functions. These are
  per-employee summaries, the filtered attendance listing and the dashboard.
- `Api` (api.dfy): the four handlers that write, as functions from a
  database value to a reply and the new database. Each keeps `Consistent`.
  The module also holds the lemmas that relate several calls.
- `Service` (store.dfy): the database as a `Store` object whose two fields
  the handlers update in place. Each method is proved equal to its `Api`
  function. The Store's `CreateEmployee` checks for a duplicate email
  with the corrected case folding, so on the input under "## Findings" it
  answers `DuplicateEmail` where the source fails with a 500; the source's
  own check is `Api.CreateEmployeeAsWritten`. `GetEmployees` and
  `GetAttendance` are the loops of `get_employees` and `get_attendance`,
  proved against `Reports`.

Fresh UUIDs, `datetime.now()` and `date.today()` are parameters. A fresh
record id is required not to be in use already. The verdicts of `EmailStr`
and of `datetime.strptime` are boolean parameters.

The model answers `NotFound` (404) when a delete names an unknown
employee or record. `get_employees` lists employees newest `created_at`
first. The department distribution is ordered by head count, descending.

## Model

| member | source | states |
|---|---|---|
| Text.Strip | backend/main.py:47-49 | the result is a slice of the input with only whitespace cut from each end; it has no whitespace at either end; it is empty exactly when the input is all whitespace |
| Text.StripUnique | backend/main.py:47-49 | any split into leading whitespace, a stripped middle and trailing whitespace has the middle as `strip()`'s answer |
| Text.StrippedIsFixed | backend/main.py:47-49 | `strip()` returns its input unchanged exactly when the input has no whitespace at either end |
| Text.StripIdempotent | backend/main.py:47-49 | stripping twice equals stripping once |
| Text.SqlLower | backend/main.py:251 | SQLite `LOWER()` keeps the length, leaves no ASCII capital, and changes no other character |
| Text.StrLower | backend/main.py:266 | Python `str.lower()` keeps the length, leaves no ASCII or Latin-1 capital, and changes no other character |
| Text.StrLowerIdempotent | backend/main.py:266 | a lower-cased address is its own lower case |
| Text.SqlLowerOfLowerCase | backend/main.py:251-266 | SQLite `LOWER()` leaves an address stored by the handler unchanged |
| Text.FoldingsAgreeOnAscii | backend/main.py:251-266 | on ASCII text, SQLite's and Python's lower-casing agree |
| Text.LexLeTotal | backend/main.py:331 | any two texts are comparable under BINARY collation |
| Text.LexLeTrans | backend/main.py:331 | BINARY collation order is transitive |
| Text.LexLeAntisymmetric | backend/main.py:331 | two texts each at or below the other are equal |
| Seqs.Find | backend/main.py:242-243 | `fetchone()` of a `WHERE` query: an index of a matching row, or none exactly when no row matches |
| Seqs.KeysDistinctOnce | backend/main.py:112 | under a primary key a row occurs at most once in its table |
| Tables.IndexOfEmployee | backend/main.py:289-290 | finds the employee with the given internal id; none exactly when no such employee exists |
| Tables.IndexOfBusinessId | backend/main.py:242-243 | finds an employee with the given business id; none exactly when no employee has it |
| Tables.IndexOfEmailSql | backend/main.py:251-252 | the duplicate-email query as written: a row whose `LOWER(email)` equals `LOWER` of the request address, or none exactly when there is no such row |
| Tables.IndexOfEmail | backend/main.py:251-252 | the duplicate-email query with Python's folding on both sides; none exactly when no stored address folds to the same text |
| Tables.IndexOfDay | backend/main.py:365-369 | finds the row of the given employee and date; none exactly when there is no such row |
| Tables.IndexOfRecord | backend/main.py:406-407 | finds the record with the given id; none exactly when there is no such record |
| Tables.WithoutEmployee | backend/main.py:298 | keeps exactly the attendance rows of other employees |
| Tables.WithoutEmployeeDistinct | backend/main.py:298 | dropping an employee's rows keeps every uniqueness constraint of the table |
| Tables.RemoveEmployeeKeepsValid | backend/main.py:301 | removing one employee row keeps the uniqueness of ids, business ids and emails |
| Tables.CascadeKeepsConsistent | backend/main.py:297-301 | deleting an employee's attendance rows and then the employee keeps every schema constraint, the reference from attendance to employees included |
| Tables.AddEmployeeKeepsConsistent | backend/main.py:263-267 | inserting a well-formed employee whose id, business id and email are all new keeps every constraint |
| Tables.RemoveRecordKeepsConsistent | backend/main.py:414 | removing one attendance row keeps every constraint |
| Requests.NotEmpty | backend/main.py:45-49 | rejects exactly the all-whitespace values; otherwise returns the value with outer whitespace cut, non-empty and no longer than the input |
| Requests.NotEmptyIdempotent | backend/main.py:45-49 | the validator accepts its own output unchanged |
| Requests.NotEmptyKeepsMiddle | backend/main.py:45-49 | for a value made of whitespace, a stripped non-empty middle and whitespace, the validator returns that middle |
| Requests.CheckText | backend/main.py:40-49 | a text field passes exactly when its raw length is between 1 and the limit and it is not all whitespace; it is too short exactly when empty and too long exactly when over the limit |
| Requests.ValidateEmployee | backend/main.py:39-49 | a body is accepted exactly when every field passes; it then holds the stripped fields; otherwise each failing field, and only those, is reported |
| Requests.ParseStatus | backend/main.py:60 | only the texts `Present` and `Absent` are statuses |
| Requests.StatusRoundTrip | backend/main.py:60 | a status parses back from its name, and a parsed text is the name of its status |
| Requests.ValidateAttendance | backend/main.py:57-68 | a body is accepted exactly when the date parses and the status is allowed; the employee id is taken as given; each failing field is reported |
| Sorting.KeyLeTotal | backend/main.py:331 | any two lists of sort keys are comparable |
| Sorting.KeyLeTrans | backend/main.py:331 | the order on lists of sort keys is transitive |
| Sorting.InsertDesc | backend/main.py:331 | inserting a row adds exactly that row |
| Sorting.InsertDescSorted | backend/main.py:331 | inserting into a descending list keeps it descending |
| Sorting.SortDesc | backend/main.py:177 | `ORDER BY … DESC` returns a permutation of its rows in descending key order |
| Reports.CountStatus | backend/main.py:448-453 | a status count never exceeds the number of rows |
| Reports.CountStatusCounts | backend/main.py:448-453 | the count of a status is the number of positions in the table holding a row of that status |
| Reports.StatusPartition | backend/main.py:447-453 | present rows plus absent rows are all rows |
| Reports.OfEmployee | backend/main.py:175 | keeps the employee's rows and no other, never more rows than the table has |
| Reports.OfEmployeeKeepsRows | backend/main.py:175 | every row of the employee is kept as often as the table holds it, and no other row is kept |
| Reports.OnDate | backend/main.py:440-444 | keeps the day's rows and no other, never more rows than the table has |
| Reports.OnDateKeepsRows | backend/main.py:440-444 | every row of the day is kept as often as the table holds it, and no other row is kept |
| Reports.CountOfEmployee | backend/main.py:172-175 | a status count over the employee's rows is the number of table positions holding a row of that employee with that status |
| Reports.CountOnDate | backend/main.py:440-445 | a status count over the day's rows is the number of table positions holding a row of that day with that status |
| Reports.OnDateCountBound | backend/main.py:439-453 | a day's count of a status is at most that status's total |
| Reports.Summary | backend/main.py:169-178 | `present_days` is the number of the employee's `Present` rows and `absent_days` the number of its `Absent` rows; together they are all of its rows, and both are zero exactly when it has none |
| Reports.EmployeeDetail | backend/main.py:197-232 | answers 404 exactly when no employee has the id; otherwise the employee with that id, with `present_days` its `Present` rows and `absent_days` its `Absent` rows |
| Reports.EmployeeDetailIsUnique | backend/main.py:203-214 | the one-employee query answers with the same row the list query gives that employee |
| Reports.EmployeesByCreation | backend/main.py:177 | the employees, each once, newest `created_at` first |
| Reports.Where | backend/main.py:320-329 | keeps exactly the rows the supplied filters admit, each as often as in the table |
| Reports.Listing | backend/main.py:320-333 | the rows the filters admit, as a permutation, by date and then creation time, newest first |
| Reports.ListingOfOne | backend/main.py:320-333 | when a single row matches, the listing is that row alone |
| Reports.EmptyFilterIsNoFilter | backend/main.py:323-329 | an empty filter text is the same as an omitted filter |
| Reports.NoFilterListsAll | backend/main.py:320 | without filters the listing is a permutation of the whole table |
| Reports.CountIn | backend/main.py:457-459 | a department's head count is the number of employees in it, zero exactly when there is none |
| Reports.DistinctDepartments | backend/main.py:436 | each department once, and only departments that occur |
| Reports.DistinctCardinality | backend/main.py:436 | a list of distinct names has as many names as its set |
| Reports.InsertByCount | backend/main.py:460 | inserting a group adds exactly that group: the multiset grows by that group alone |
| Reports.InsertByCountKeeps | backend/main.py:460 | inserting a new group keeps the groups in descending count order with distinct names |
| Reports.SortByCount | backend/main.py:459-460 | orders the groups by count, descending, keeping each group and adding none |
| Reports.SortByCountPermutes | backend/main.py:459-460 | the sorted groups are a permutation of the groups given |
| Reports.DepartmentDistribution | backend/main.py:456-462 | one group per department that occurs, names distinct, each with its head count (at least one), in descending count order |
| Reports.DistributionTotals | backend/main.py:435-462 | the distribution has one entry per distinct department, and its counts add up to the number of employees |
| Reports.Dashboard | backend/main.py:423-474 | `departments` is the department distribution: each department once, with its head count, by count descending; `total_employees` counts the employees and `total_departments` the distinct departments, which is also the length of the distribution; the distribution sums to the employees; `total_present` and `total_absent` are the numbers of `Present` and `Absent` rows, and together all rows; `present_today` and `absent_today` are the numbers of today's rows of each status, together all of today's rows, each within its total |
| Reports.DashboardTodayBounded | backend/main.py:439-445 | on a consistent database, present plus absent today is at most the number of employees |
| Reports.DayRowsPerEmployee | backend/main.py:130 | one attendance row per employee and day: a day has as many rows as employees marked on it |
| Api.Empty | backend/main.py:104-132 | a freshly initialised database is empty and meets every constraint |
| Api.CreateEmployee | backend/main.py:235-279 | a taken business id gives the duplicate-id error; otherwise a taken address (compared lower-cased) gives the duplicate-email error; both leave the database unchanged; otherwise the new employee with the lower-cased address is appended; the constraints hold afterwards |
| Api.NewEmployeeFits | backend/main.py:263-267 | the inserted row meets every constraint when both duplicate checks passed |
| Api.CreateEmployeeAsWritten | backend/main.py:241-267 | with the duplicate check by SQLite `LOWER()`, it answers the duplicate-id error exactly when the business id is taken, the duplicate-email error exactly when `LOWER()` matches a stored address, the integrity error exactly when only Python's folding matches one, committing nothing in each case; and it inserts the new row and answers it exactly when neither id nor folded email is taken |
| Api.SameFoldingWhenUnique | backend/main.py:251-267 | an address whose lower case no stored row holds is not taken |
| Api.AsWrittenMissesLatin1Duplicate | backend/main.py:251-267 | with `é@x.io` stored, creating `É@x.io` fails with the integrity error as written and with the duplicate-email error when corrected |
| Api.AsWrittenAgreesOnAscii | backend/main.py:251-267 | for an ASCII address the handler as written and the corrected one give the same reply |
| Api.CreateThenGet | backend/main.py:235-279 | after a successful create, looking up the new id gives the new employee with no attendance |
| Api.CreateTwice | backend/main.py:241-248 | repeating a successful create is refused as a duplicate business id |
| Api.DeleteEmployee | backend/main.py:282-306 | answers 404 and changes nothing exactly when the employee is absent; otherwise removes just that employee and exactly its attendance rows; the constraints hold afterwards |
| Api.DeleteThenGone | backend/main.py:297-301 | after a delete the employee is not found and the employee's attendance listing is empty |
| Api.RemovedById | backend/main.py:301 | removing the row at an index removes exactly the employee with its id |
| Api.MarkAttendance | backend/main.py:349-397 | answers 404 and changes nothing exactly when the employee is absent; otherwise replaces the status and time of the day's row and keeps its id, or appends a new row with the fresh id; employees are unchanged and the constraints hold |
| Api.MarkThenList | backend/main.py:364-386 | after marking, the listing for that employee and date is exactly the marked row |
| Api.MarkTwice | backend/main.py:373-379 | marking the same day again keeps the record id, takes the new status, and adds no row |
| Api.DayIsUnique | backend/main.py:130 | at most one row has a given employee and date |
| Api.UpdateKeepsConsistent | backend/main.py:375-378 | updating a row in place, same id and day, keeps every constraint |
| Api.AppendKeepsConsistent | backend/main.py:383-386 | appending a row for an existing employee with a new id and a new day keeps every constraint |
| Api.DeleteAttendance | backend/main.py:400-418 | answers 404 and changes nothing exactly when the record is absent; otherwise removes just that record; employees are unchanged and the constraints hold |
| Api.RemovedRecordById | backend/main.py:414 | removing the row at an index removes exactly the record with its id |
| Service.Store.constructor | backend/main.py:104-132 | the new store is empty and meets every constraint |
| Service.Store.CreateEmployee | backend/main.py:235-279 | updates the tables and answers exactly as `Api.CreateEmployee`, keeping the constraints; it uses the corrected duplicate-email check (see `Api.CreateEmployeeAsWritten` for the source's) |
| Service.Store.DeleteEmployee | backend/main.py:282-306 | updates the tables and answers exactly as `Api.DeleteEmployee`, keeping the constraints |
| Service.Store.MarkAttendance | backend/main.py:349-397 | updates the tables and answers exactly as `Api.MarkAttendance`, keeping the constraints |
| Service.Store.DeleteAttendance | backend/main.py:400-418 | updates the tables and answers exactly as `Api.DeleteAttendance`, keeping the constraints |
| Service.Store.GetEmployees | backend/main.py:163-194 | one answer row per employee, each employee exactly once (as a multiset), each with its attendance summary, newest `created_at` first |
| Service.Store.GetAttendance | backend/main.py:311-346 | answers the filtered, ordered listing: exactly the matching rows, by date and then creation time, newest first |
| Service.AnswerCoversEmployees | backend/main.py:177-191 | answer rows that follow the `ORDER BY created_at DESC` result one for one name every employee exactly once, newest first |
| Service.CopyRows | backend/main.py:335-343 | the result loop keeps every row, in order |

## Left out

- The FastAPI application is not modelled: routing, CORS, the root health endpoint, the startup hook, `uvicorn` and `async`. Only the handlers' effects and answers are modelled.
- The SQLite connection, cursor and commit plumbing are not modelled. One handler call is one atomic step; concurrent requests are not modelled.
- The indexes of `init_db` are not modelled, because they change only speed.
- `uuid.uuid4()`, `datetime.now()` and `date.today()` are parameters. A fresh employee id or record id is required to be unused; the source relies on UUID collisions not happening.
- `EmailStr` validation is a boolean parameter, because its rules belong to a library. The same holds for its normalisation of the domain, and an accepted address is taken as typed.
- `datetime.strptime` date checking is a boolean parameter. Dates are compared as the raw strings, as SQLite compares them.
- Text.StrLower: folds only ASCII capitals and the Latin-1 capitals U+00C0 to U+00DE other than U+00D7. Python's `str.lower()` also folds capitals above U+00FF and a few characters into several.
- HTTP status codes, error texts and JSON encoding are not modelled. They appear only as the constructors of `Result` and the validation problems of `Requests`. The values Pydantic re-checks in the response models are already stripped, which `Requests.NotEmptyIdempotent` covers.
- Pydantic's order of reported errors and its error messages are not modelled. Only which fields are reported is modelled.
- `ON DELETE CASCADE` is not relied on, because SQLite leaves foreign keys off by default. The cascade is the explicit `DELETE` of `delete_employee`. The reference from attendance rows to employees is an invariant the handlers keep.
- The dashboard's `status = "Present"` in double quotes names no column, so SQLite reads it as the text literal. It is modelled as that comparison.
- Reports.EmployeesByCreation, Reports.Listing, Reports.DepartmentDistribution: rows whose sort keys tie come out in an order SQLite does not promise. The model fixes one: the first-listed row first for `ORDER BY … DESC`, and first appearance for equal head counts.
- Api.CreateEmployeeAsWritten: an unhandled `IntegrityError` is modelled as a reply that commits nothing; the 500 response is not modelled.

## Findings

| source | as written | input that shows it | evidently intended | confidence | as-written member | corrected member |
|---|---|---|---|---|---|---|
| backend/main.py:251-267 | the duplicate-email check compares with SQLite's ASCII-only `LOWER()`, but the row is stored with Python's full `email.lower()` under `UNIQUE(email)` | `é@x.io` stored, then `É@x.io` posted: the check finds no match, and the insert of `é@x.io` violates `UNIQUE(email)`, so the answer is a 500 | the duplicate check folds case as the stored value does, so the answer is the 400 duplicate-email error | medium, not executed | Api.CreateEmployeeAsWritten, Api.AsWrittenMissesLatin1Duplicate | Api.CreateEmployee |

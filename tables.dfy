/** The two tables of the HR store, their rows, and the schema constraints
    of `init_db` (backend/main.py) stated as a predicate over the rows. */
module Tables {
  import opened Seqs
  import Text

  /** The `CHECK(status IN ('Present', 'Absent'))` column. */
  datatype Status = Present | Absent

  /** A row of `employees`; `id` is the internal key, `employeeId` the
      business identifier the user types. */
  datatype Employee = Employee(
    id: string,
    employeeId: string,
    fullName: string,
    email: string,
    department: string,
    createdAt: string)

  /** A row of `attendance`; `employeeId` holds the internal `id` of the
      employee it belongs to. */
  datatype AttendanceRecord = AttendanceRecord(
    id: string,
    employeeId: string,
    date: string,
    status: Status,
    createdAt: string)

  /** What a handler returns: a value, or one of the errors it raises as an
      HTTP exception (404 for `NotFound`, 400 for the duplicates).
      `IntegrityError` is an INSERT refused by a `UNIQUE` constraint: the
      `sqlite3.IntegrityError` escapes the handler, the framework answers
      500, and nothing is committed. */
  datatype Result<T> = Ok(value: T) | NotFound | DuplicateEmployeeId | DuplicateEmail | IntegrityError

  // The keys the schema declares unique.
  function RowId(e: Employee): string { e.id }
  function BusinessId(e: Employee): string { e.employeeId }
  function EmailKey(e: Employee): string { e.email }
  function RecordId(a: AttendanceRecord): string { a.id }
  function DayKey(a: AttendanceRecord): (string, string) { (a.employeeId, a.date) }

  /** A text field as the `not_empty` validator leaves it: non-empty and
      with no surrounding whitespace. */
  predicate IsFilled(s: string) {
    s != [] && Text.IsStripped(s)
  }

  /** What every row written by `create_employee` satisfies: the three
      validated fields are stripped and filled, the email is stored as
      `email.lower()`. */
  predicate WellFormed(e: Employee) {
    IsFilled(e.employeeId) && IsFilled(e.fullName) && IsFilled(e.department) && Text.IsLowerCase(e.email)
  }

  predicate HasEmployee(emps: seq<Employee>, id: string) {
    exists j | 0 <= j < |emps| :: emps[j].id == id
  }

  predicate HasRecord(att: seq<AttendanceRecord>, id: string) {
    exists j | 0 <= j < |att| :: att[j].id == id
  }

  /** Some employee already has the business identifier. */
  predicate EmployeeIdTaken(emps: seq<Employee>, employeeId: string) {
    exists j | 0 <= j < |emps| :: emps[j].employeeId == employeeId
  }

  /** Some stored email equals `email` once both are lower-cased by Python's
      `str.lower()`. */
  predicate EmailTaken(emps: seq<Employee>, email: string) {
    exists j | 0 <= j < |emps| :: Text.StrLower(emps[j].email) == Text.StrLower(email)
  }

  /** `id` is the primary key, `employee_id` and `email` are `UNIQUE`. As
      every stored email is lower-case, emails are unique up to case too. */
  predicate EmployeesValid(emps: seq<Employee>) {
    && KeysDistinct(emps, RowId)
    && KeysDistinct(emps, BusinessId)
    && KeysDistinct(emps, EmailKey)
    && forall i | 0 <= i < |emps| :: WellFormed(emps[i])
  }

  /** `id` is the primary key, `UNIQUE(employee_id, date)`, and every row
      belongs to an existing employee (the foreign key, kept by the
      handlers themselves). */
  predicate AttendanceValid(emps: seq<Employee>, att: seq<AttendanceRecord>) {
    && KeysDistinct(att, RecordId)
    && KeysDistinct(att, DayKey)
    && forall i | 0 <= i < |att| :: HasEmployee(emps, att[i].employeeId)
  }

  predicate Consistent(emps: seq<Employee>, att: seq<AttendanceRecord>) {
    EmployeesValid(emps) && AttendanceValid(emps, att)
  }

  // ----- lookups: the SELECT queries the handlers issue -----

  /** `SELECT id FROM employees WHERE id = ?` */
  function IndexOfEmployee(emps: seq<Employee>, id: string): (r: Option<nat>)
    ensures r.Some? ==> r.value < |emps| && emps[r.value].id == id
    ensures r.None? <==> !HasEmployee(emps, id)
  {
    Find(emps, (e: Employee) => e.id == id)
  }

  /** `SELECT id FROM employees WHERE employee_id = ?` (exact match) */
  function IndexOfBusinessId(emps: seq<Employee>, employeeId: string): (r: Option<nat>)
    ensures r.Some? ==> r.value < |emps| && emps[r.value].employeeId == employeeId
    ensures r.None? <==> !EmployeeIdTaken(emps, employeeId)
  {
    Find(emps, (e: Employee) => e.employeeId == employeeId)
  }

  /** `SELECT id FROM employees WHERE LOWER(email) = LOWER(?)`, with
      SQLite's ASCII-only `LOWER()`. */
  function IndexOfEmailSql(emps: seq<Employee>, email: string): (r: Option<nat>)
    ensures r.Some? ==> r.value < |emps| && Text.SqlLower(emps[r.value].email) == Text.SqlLower(email)
    ensures r.None? <==> forall i | 0 <= i < |emps| :: Text.SqlLower(emps[i].email) != Text.SqlLower(email)
  {
    Find(emps, (e: Employee) => Text.SqlLower(e.email) == Text.SqlLower(email))
  }

  /** The duplicate-email lookup folded the way the stored email is folded,
      by Python's `str.lower()`. */
  function IndexOfEmail(emps: seq<Employee>, email: string): (r: Option<nat>)
    ensures r.Some? ==> r.value < |emps| && Text.StrLower(emps[r.value].email) == Text.StrLower(email)
    ensures r.None? <==> !EmailTaken(emps, email)
  {
    Find(emps, (e: Employee) => Text.StrLower(e.email) == Text.StrLower(email))
  }

  /** `SELECT id FROM attendance WHERE employee_id = ? AND date = ?` */
  function IndexOfDay(att: seq<AttendanceRecord>, employeeId: string, date: string): (r: Option<nat>)
    ensures r.Some? ==> r.value < |att| && att[r.value].employeeId == employeeId && att[r.value].date == date
    ensures r.None? <==> forall i | 0 <= i < |att| :: DayKey(att[i]) != (employeeId, date)
  {
    Find(att, (a: AttendanceRecord) => a.employeeId == employeeId && a.date == date)
  }

  /** `SELECT id FROM attendance WHERE id = ?` */
  function IndexOfRecord(att: seq<AttendanceRecord>, id: string): (r: Option<nat>)
    ensures r.Some? ==> r.value < |att| && att[r.value].id == id
    ensures r.None? <==> !HasRecord(att, id)
  {
    Find(att, (a: AttendanceRecord) => a.id == id)
  }

  // ----- the cascade -----

  /** `DELETE FROM attendance WHERE employee_id = ?`: the rows that remain,
      in table order. */
  function WithoutEmployee(att: seq<AttendanceRecord>, id: string): (r: seq<AttendanceRecord>)
    ensures |r| <= |att|
    ensures forall a :: a in r <==> a in att && a.employeeId != id
  {
    if att == [] then []
    else if att[0].employeeId == id then WithoutEmployee(att[1..], id)
    else [att[0]] + WithoutEmployee(att[1..], id)
  }

  lemma {:induction false} WithoutEmployeeDistinct<K>(att: seq<AttendanceRecord>, id: string, key: AttendanceRecord -> K)
    requires KeysDistinct(att, key)
    ensures KeysDistinct(WithoutEmployee(att, id), key)
  {
    if att != [] {
      var tail := att[1..];
      assert KeysDistinct(tail, key) by {
        forall i, j | 0 <= i < j < |tail| ensures key(tail[i]) != key(tail[j]) {
          assert tail[i] == att[i + 1] && tail[j] == att[j + 1];
        }
      }
      WithoutEmployeeDistinct(tail, id, key);
      if att[0].employeeId != id {
        var rest := WithoutEmployee(tail, id);
        var r := [att[0]] + rest;
        forall i, j | 0 <= i < j < |r| ensures key(r[i]) != key(r[j]) {
          if i == 0 {
            assert r[j] == rest[j - 1];
            assert r[j] in tail;
            var k :| 0 <= k < |tail| && tail[k] == r[j];
            assert att[k + 1] == r[j];
          } else {
            assert r[i] == rest[i - 1] && r[j] == rest[j - 1];
          }
        }
      }
    }
  }

  lemma RemoveEmployeeKeepsValid(emps: seq<Employee>, k: nat)
    requires EmployeesValid(emps) && k < |emps|
    ensures EmployeesValid(emps[..k] + emps[k + 1..])
  {
    var emps' := emps[..k] + emps[k + 1..];
    DistinctRemoveAt(emps, RowId, k);
    DistinctRemoveAt(emps, BusinessId, k);
    DistinctRemoveAt(emps, EmailKey, k);
    RemoveAtElements(emps, k);
    forall i | 0 <= i < |emps'| ensures WellFormed(emps'[i]) {
      assert emps'[i] in emps;
    }
  }

  /** Deleting the rows of one employee keeps the schema constraints of what
      remains, with that employee's row removed as well. */
  lemma CascadeKeepsConsistent(emps: seq<Employee>, att: seq<AttendanceRecord>, k: nat)
    requires Consistent(emps, att) && k < |emps|
    ensures Consistent(emps[..k] + emps[k + 1..], WithoutEmployee(att, emps[k].id))
  {
    var id := emps[k].id;
    var emps' := emps[..k] + emps[k + 1..];
    var att' := WithoutEmployee(att, id);
    RemoveEmployeeKeepsValid(emps, k);
    RemoveAtElements(emps, k);
    WithoutEmployeeDistinct(att, id, RecordId);
    WithoutEmployeeDistinct(att, id, DayKey);
    forall i | 0 <= i < |att'| ensures HasEmployee(emps', att'[i].employeeId) {
      var a := att'[i];
      assert a in att;
      var m :| 0 <= m < |att| && att[m] == a;
      var j :| 0 <= j < |emps| && emps[j].id == a.employeeId;
      assert j != k by {
        assert a.employeeId != id;
      }
      assert emps[j] in emps';
      var j' :| 0 <= j' < |emps'| && emps'[j'] == emps[j];
    }
  }

  /** Appending an employee whose keys are all new keeps the constraints. */
  lemma AddEmployeeKeepsConsistent(emps: seq<Employee>, att: seq<AttendanceRecord>, e: Employee)
    requires Consistent(emps, att) && WellFormed(e)
    requires !HasEmployee(emps, e.id)
    requires forall i | 0 <= i < |emps| :: emps[i].employeeId != e.employeeId
    requires forall i | 0 <= i < |emps| :: emps[i].email != e.email
    ensures Consistent(emps + [e], att)
  {
    var emps' := emps + [e];
    DistinctAppend(emps, RowId, e);
    DistinctAppend(emps, BusinessId, e);
    DistinctAppend(emps, EmailKey, e);
    assert forall i | 0 <= i < |emps'| :: emps'[i] == if i < |emps| then emps[i] else e;
    forall i | 0 <= i < |att| ensures HasEmployee(emps', att[i].employeeId) {
      var j :| 0 <= j < |emps| && emps[j].id == att[i].employeeId;
      assert emps'[j] == emps[j];
    }
  }

  /** Removing one attendance row keeps the constraints. */
  lemma RemoveRecordKeepsConsistent(emps: seq<Employee>, att: seq<AttendanceRecord>, k: nat)
    requires Consistent(emps, att) && k < |att|
    ensures Consistent(emps, att[..k] + att[k + 1..])
  {
    DistinctRemoveAt(att, RecordId, k);
    DistinctRemoveAt(att, DayKey, k);
    RemoveAtElements(att, k);
    var att' := att[..k] + att[k + 1..];
    forall i | 0 <= i < |att'| ensures HasEmployee(emps, att'[i].employeeId) {
      assert att'[i] in att;
    }
  }
}

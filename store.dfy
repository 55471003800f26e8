/** The SQLite database behind the API as an object: the two tables are
    fields the handlers update in place. Each handler that writes is proved
    to leave the tables as the matching function of module `Api` says; the
    two handlers that build their answer in a loop are proved against the
    query functions of module `Reports`. */
module Service {
  import opened Seqs
  import opened Tables
  import opened Requests
  import opened Reports
  import Api
  import Sorting
  import Text

  class Store {
    var employees: seq<Employee>
    var attendance: seq<AttendanceRecord>

    function State(): Api.Db
      reads this
    {
      Api.Db(employees, attendance)
    }

    /** The schema constraints of `init_db`. */
    ghost predicate Valid()
      reads this
    {
      Api.Invariant(State())
    }

    /** `init_db` on a new database file: both tables empty. */
    constructor ()
      ensures Valid() && State() == Api.Empty()
    {
      employees := [];
      attendance := [];
    }

    /** `create_employee`. */
    method CreateEmployee(req: EmployeeCreate, newId: string, now: string) returns (r: Result<Employee>)
      requires Valid() && IsValidEmployee(req) && !HasEmployee(employees, newId)
      modifies this
      ensures Valid()
      ensures r == Api.CreateEmployee(old(State()), req, newId, now).result
      ensures State() == Api.CreateEmployee(old(State()), req, newId, now).db
    {
      ghost var reply := Api.CreateEmployee(State(), req, newId, now);
      if IndexOfBusinessId(employees, req.employeeId).Some? {
        return DuplicateEmployeeId;
      }
      if IndexOfEmail(employees, req.email).Some? {
        return DuplicateEmail;
      }
      var e := Employee(newId, req.employeeId, req.fullName, Text.StrLower(req.email), req.department, now);
      employees := employees + [e];
      r := Ok(e);
      assert State() == reply.db;
    }

    /** `delete_employee`: the attendance rows go first, then the employee. */
    method DeleteEmployee(id: string) returns (r: Result<()>)
      requires Valid()
      modifies this
      ensures Valid()
      ensures r == Api.DeleteEmployee(old(State()), id).result
      ensures State() == Api.DeleteEmployee(old(State()), id).db
    {
      ghost var reply := Api.DeleteEmployee(State(), id);
      var found := IndexOfEmployee(employees, id);
      if found.None? {
        return NotFound;
      }
      var k := found.value;
      attendance := WithoutEmployee(attendance, id);
      employees := employees[..k] + employees[k + 1..];
      r := Ok(());
      assert State() == reply.db;
    }

    /** `mark_attendance`. */
    method MarkAttendance(req: AttendanceCreate, newId: string, now: string) returns (r: Result<AttendanceRecord>)
      requires Valid() && !HasRecord(attendance, newId)
      modifies this
      ensures Valid()
      ensures r == Api.MarkAttendance(old(State()), req, newId, now).result
      ensures State() == Api.MarkAttendance(old(State()), req, newId, now).db
    {
      ghost var reply := Api.MarkAttendance(State(), req, newId, now);
      if IndexOfEmployee(employees, req.employeeId).None? {
        return NotFound;
      }
      var existing := IndexOfDay(attendance, req.employeeId, req.date);
      var a: AttendanceRecord;
      if existing.Some? {
        var k := existing.value;
        a := AttendanceRecord(attendance[k].id, req.employeeId, req.date, req.status, now);
        attendance := attendance[k := a];
      } else {
        a := AttendanceRecord(newId, req.employeeId, req.date, req.status, now);
        attendance := attendance + [a];
      }
      r := Ok(a);
      assert r == reply.result && State() == reply.db;
    }

    /** `delete_attendance`. */
    method DeleteAttendance(recordId: string) returns (r: Result<()>)
      requires Valid()
      modifies this
      ensures Valid()
      ensures r == Api.DeleteAttendance(old(State()), recordId).result
      ensures State() == Api.DeleteAttendance(old(State()), recordId).db
    {
      ghost var reply := Api.DeleteAttendance(State(), recordId);
      var found := IndexOfRecord(attendance, recordId);
      if found.None? {
        return NotFound;
      }
      var k := found.value;
      attendance := attendance[..k] + attendance[k + 1..];
      r := Ok(());
      assert State() == reply.db;
    }

    /** `get_employees`: the query orders the employees by `created_at`
        descending and aggregates each one's attendance; the loop collects
        one answer row per result row. */
    method GetEmployees() returns (rows: seq<EmployeeWithAttendance>)
      ensures |rows| == |employees|
      ensures multiset(EmployeesOf(rows)) == multiset(employees)
      ensures forall e :: e in employees <==> exists k | 0 <= k < |rows| :: rows[k].employee == e
      ensures forall k | 0 <= k < |rows| :: rows[k] == Summary(attendance, rows[k].employee)
      ensures forall i, j | 0 <= i < j < |rows| :: Sorting.KeyLe(CreatedKey(rows[j].employee), CreatedKey(rows[i].employee))
    {
      var result := EmployeesByCreation(employees);
      rows := [];
      var i := 0;
      while i < |result|
        invariant 0 <= i <= |result|
        invariant |rows| == i
        invariant forall k | 0 <= k < i :: rows[k].employee == result[k] && rows[k] == Summary(attendance, result[k])
      {
        var row := Summary(attendance, result[i]);
        rows := rows + [row];
        i := i + 1;
      }
      AnswerCoversEmployees(employees, result, rows);
    }

    /** `get_attendance`: the query filters and orders the rows; the loop
        copies each result row into the answer. */
    method GetAttendance(employeeId: Option<string>, date: Option<string>) returns (records: seq<AttendanceRecord>)
      ensures records == Listing(attendance, Filter(employeeId, date))
      ensures forall a :: a in records <==> a in attendance && Matches(a, Filter(employeeId, date))
      ensures Sorting.SortedDesc(records, AttendanceKey)
    {
      var result := Listing(attendance, Filter(employeeId, date));
      records := CopyRows(result);
    }
  }

  /** Rows that follow the `ORDER BY created_at DESC` result one for one are
      about every employee exactly once, in that order. */
  lemma AnswerCoversEmployees(employees: seq<Employee>, result: seq<Employee>, rows: seq<EmployeeWithAttendance>)
    requires result == EmployeesByCreation(employees)
    requires |rows| == |result| && forall k | 0 <= k < |rows| :: rows[k].employee == result[k]
    ensures multiset(EmployeesOf(rows)) == multiset(employees)
    ensures forall e :: e in employees <==> exists k | 0 <= k < |rows| :: rows[k].employee == e
    ensures forall i, j | 0 <= i < j < |rows| :: Sorting.KeyLe(CreatedKey(rows[j].employee), CreatedKey(rows[i].employee))
  {
    assert EmployeesOf(rows) == result;
    assert Sorting.SortedDesc(result, CreatedKey);
    forall e | e in employees ensures exists k | 0 <= k < |rows| :: rows[k].employee == e {
      var k :| 0 <= k < |result| && result[k] == e;
      assert rows[k].employee == e;
    }
  }

  /** The loop of `get_attendance` that turns each result row into a
      dictionary: it keeps every row, in order. */
  method CopyRows(rows: seq<AttendanceRecord>) returns (records: seq<AttendanceRecord>)
    ensures records == rows
  {
    records := [];
    var i := 0;
    while i < |rows|
      invariant 0 <= i <= |rows|
      invariant records == rows[..i]
    {
      records := records + [rows[i]];
      i := i + 1;
    }
    assert rows[..|rows|] == rows;
  }
}

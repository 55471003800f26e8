/** The four handlers that change the database (`create_employee`,
    `delete_employee`, `mark_attendance`, `delete_attendance` in
    backend/main.py), each as a function from the database before the
    request to the answer and the database after it. Fresh UUIDs and the
    clock are parameters. */
module Api {
  import opened Seqs
  import opened Tables
  import opened Requests
  import opened Reports
  import Text

  /** The contents of the two tables. */
  datatype Db = Db(employees: seq<Employee>, attendance: seq<AttendanceRecord>)

  predicate Invariant(db: Db) {
    Consistent(db.employees, db.attendance)
  }

  /** A handler's answer together with the database it leaves. */
  datatype Reply<T> = Reply(result: Result<T>, db: Db)

  /** The database `init_db` creates. */
  function Empty(): (db: Db)
    ensures Invariant(db) && db.employees == [] && db.attendance == []
  {
    Db([], [])
  }

  /** The row `create_employee` inserts: the validated fields, the email
      lower-cased, a fresh id and the creation time. */
  function NewEmployee(req: EmployeeCreate, newId: string, now: string): Employee {
    Employee(newId, req.employeeId, req.fullName, Text.StrLower(req.email), req.department, now)
  }

  // ----- create_employee -----

  /** `create_employee`, with the duplicate-email check folded the way the
      stored email is folded. Exactly three outcomes: a duplicate business id
      (checked first), a duplicate email, or one new row at the end. */
  function CreateEmployee(db: Db, req: EmployeeCreate, newId: string, now: string): (r: Reply<Employee>)
    requires Invariant(db) && IsValidEmployee(req) && !HasEmployee(db.employees, newId)
    ensures Invariant(r.db) && r.db.attendance == db.attendance
    ensures r.result == DuplicateEmployeeId <==> EmployeeIdTaken(db.employees, req.employeeId)
    ensures r.result == DuplicateEmail <==> !EmployeeIdTaken(db.employees, req.employeeId) && EmailTaken(db.employees, req.email)
    ensures r.result.Ok? <==> !EmployeeIdTaken(db.employees, req.employeeId) && !EmailTaken(db.employees, req.email)
    ensures r.result.Ok? ==> r.result.value == NewEmployee(req, newId, now) && r.db.employees == db.employees + [r.result.value]
    ensures !r.result.Ok? ==> r.db == db
  {
    if IndexOfBusinessId(db.employees, req.employeeId).Some? then Reply(DuplicateEmployeeId, db)
    else if IndexOfEmail(db.employees, req.email).Some? then Reply(DuplicateEmail, db)
    else
      var e := NewEmployee(req, newId, now);
      NewEmployeeFits(db, req, newId, now);
      Reply(Ok(e), Db(db.employees + [e], db.attendance))
  }

  lemma NewEmployeeFits(db: Db, req: EmployeeCreate, newId: string, now: string)
    requires Invariant(db) && IsValidEmployee(req) && !HasEmployee(db.employees, newId)
    requires !EmployeeIdTaken(db.employees, req.employeeId) && !EmailTaken(db.employees, req.email)
    ensures Invariant(Db(db.employees + [NewEmployee(req, newId, now)], db.attendance))
  {
    var emps := db.employees;
    var e := NewEmployee(req, newId, now);
    Text.StrLowerIdempotent(req.email);
    forall i | 0 <= i < |emps| ensures emps[i].email != e.email {
      assert WellFormed(emps[i]);
    }
    AddEmployeeKeepsConsistent(emps, db.attendance, e);
  }

  /** `create_employee` as written: the duplicate check compares SQLite's
      ASCII-only `LOWER(email)` with `LOWER(?)` of the address as sent, but
      the row stores Python's `email.lower()`; when the two foldings differ
      the INSERT meets the `UNIQUE(email)` constraint instead. */
  function CreateEmployeeAsWritten(db: Db, req: EmployeeCreate, newId: string, now: string): (r: Reply<Employee>)
    requires Invariant(db) && IsValidEmployee(req) && !HasEmployee(db.employees, newId)
    ensures Invariant(r.db) && r.db.attendance == db.attendance
    ensures r.result == DuplicateEmployeeId <==> EmployeeIdTaken(db.employees, req.employeeId)
    ensures r.result == DuplicateEmail <==>
      !EmployeeIdTaken(db.employees, req.employeeId) &&
      exists i | 0 <= i < |db.employees| :: Text.SqlLower(db.employees[i].email) == Text.SqlLower(req.email)
    ensures r.result == IntegrityError <==>
      !EmployeeIdTaken(db.employees, req.employeeId) &&
      (forall i | 0 <= i < |db.employees| :: Text.SqlLower(db.employees[i].email) != Text.SqlLower(req.email)) &&
      EmailTaken(db.employees, req.email)
    ensures r.result.Ok? <==> !EmployeeIdTaken(db.employees, req.employeeId) && !EmailTaken(db.employees, req.email)
    ensures r.result.Ok? ==> r.result.value == NewEmployee(req, newId, now) && r.db.employees == db.employees + [r.result.value]
    ensures !r.result.Ok? ==> r.db == db
  {
    if IndexOfBusinessId(db.employees, req.employeeId).Some? then Reply(DuplicateEmployeeId, db)
    else if IndexOfEmailSql(db.employees, req.email).Some? then Reply(DuplicateEmail, db)
    else
      var e := NewEmployee(req, newId, now);
      if exists i | 0 <= i < |db.employees| :: db.employees[i].email == e.email then
        var i :| 0 <= i < |db.employees| && db.employees[i].email == e.email;
        assert WellFormed(db.employees[i]);
        Text.StrLowerIdempotent(req.email);
        Reply(IntegrityError, db)
      else
        SameFoldingWhenUnique(db, req, newId, now);
        NewEmployeeFits(db, req, newId, now);
        Reply(Ok(e), Db(db.employees + [e], db.attendance))
  }

  lemma SameFoldingWhenUnique(db: Db, req: EmployeeCreate, newId: string, now: string)
    requires Invariant(db)
    requires forall i | 0 <= i < |db.employees| :: db.employees[i].email != NewEmployee(req, newId, now).email
    ensures !EmailTaken(db.employees, req.email)
  {
    forall i | 0 <= i < |db.employees| ensures Text.StrLower(db.employees[i].email) != Text.StrLower(req.email) {
      assert WellFormed(db.employees[i]);
    }
  }

  /** The address `É@x.io` while `é@x.io` is stored: the check
      as written lets it through and the INSERT fails, where the duplicate
      answer was meant. */
  lemma AsWrittenMissesLatin1Duplicate()
    ensures
      var stored := Employee("id-1", "E1", "Ann", "\U{E9}@x.io", "Sales", "t0");
      var db := Db([stored], []);
      var req := EmployeeCreate("E2", "Bob", "\U{C9}@x.io", "Sales");
      && Invariant(db) && IsValidEmployee(req)
      && CreateEmployeeAsWritten(db, req, "id-2", "t1").result == IntegrityError
      && CreateEmployee(db, req, "id-2", "t1").result == DuplicateEmail
  {
    var stored := Employee("id-1", "E1", "Ann", "\U{E9}@x.io", "Sales", "t0");
    var db := Db([stored], []);
    var req := EmployeeCreate("E2", "Bob", "\U{C9}@x.io", "Sales");
    FoldingsOfLatin1Capital("\U{E9}@x.io", "\U{C9}@x.io");
    assert db.employees[0] == stored;
    assert EmailTaken(db.employees, req.email);
  }

  /** `é@x.io` is lower-case and is what Python makes of `É@x.io`, while
      SQLite's `LOWER()` keeps the two apart. */
  lemma FoldingsOfLatin1Capital(lower: string, upper: string)
    requires lower == "\U{E9}@x.io" && upper == "\U{C9}@x.io"
    ensures Text.IsLowerCase(lower) && Text.StrLower(upper) == lower
    ensures Text.SqlLower(upper) != Text.SqlLower(lower)
  {
    assert Text.StrLower(lower)[0] == lower[0];
    assert Text.StrLower(upper)[0] == lower[0];
    assert Text.SqlLower(upper)[0] != Text.SqlLower(lower)[0];
  }

  /** For an ASCII address the check as written and the corrected one give
      the same answer and the same database. */
  lemma AsWrittenAgreesOnAscii(db: Db, req: EmployeeCreate, newId: string, now: string)
    requires Invariant(db) && IsValidEmployee(req) && !HasEmployee(db.employees, newId)
    requires forall i | 0 <= i < |req.email| :: req.email[i] < '\U{80}'
    ensures CreateEmployeeAsWritten(db, req, newId, now) == CreateEmployee(db, req, newId, now)
  {
    var emps := db.employees;
    Text.FoldingsAgreeOnAscii(req.email);
    forall i | 0 <= i < |emps|
      ensures (Text.SqlLower(emps[i].email) == Text.SqlLower(req.email)) == (Text.StrLower(emps[i].email) == Text.StrLower(req.email))
      ensures (emps[i].email == NewEmployee(req, newId, now).email) == (Text.StrLower(emps[i].email) == Text.StrLower(req.email))
    {
      assert WellFormed(emps[i]);
      Text.SqlLowerOfLowerCase(emps[i].email);
    }
  }

  /** A created employee is found by `get_employee` under the new id, with
      no attendance yet. */
  lemma CreateThenGet(db: Db, req: EmployeeCreate, newId: string, now: string)
    requires Invariant(db) && IsValidEmployee(req) && !HasEmployee(db.employees, newId)
    requires CreateEmployee(db, req, newId, now).result.Ok?
    ensures var r := CreateEmployee(db, req, newId, now);
      EmployeeDetail(r.db.employees, r.db.attendance, newId) == Ok(EmployeeWithAttendance(r.result.value, 0, 0))
  {
    var r := CreateEmployee(db, req, newId, now);
    var e := r.result.value;
    EmployeeDetailIsUnique(r.db.employees, r.db.attendance, |db.employees|);
    assert r.db.employees[|db.employees|] == e;
    forall a | a in db.attendance ensures a.employeeId != newId {
      var i :| 0 <= i < |db.attendance| && db.attendance[i] == a;
      assert HasEmployee(db.employees, db.attendance[i].employeeId);
    }
  }

  /** Sending the same body twice creates one employee: the second request
      is answered with the duplicate business id. */
  lemma CreateTwice(db: Db, req: EmployeeCreate, newId: string, now: string, newId2: string, now2: string)
    requires Invariant(db) && IsValidEmployee(req) && !HasEmployee(db.employees, newId)
    requires CreateEmployee(db, req, newId, now).result.Ok?
    requires !HasEmployee(CreateEmployee(db, req, newId, now).db.employees, newId2)
    ensures CreateEmployee(CreateEmployee(db, req, newId, now).db, req, newId2, now2).result == DuplicateEmployeeId
  {
    var r := CreateEmployee(db, req, newId, now);
    assert r.db.employees[|db.employees|].employeeId == req.employeeId;
  }

  // ----- delete_employee -----

  /** `delete_employee`: 404 for an unknown id, otherwise the employee and
      every attendance row of theirs are gone and nothing else is. */
  function DeleteEmployee(db: Db, id: string): (r: Reply<()>)
    requires Invariant(db)
    ensures Invariant(r.db)
    ensures r.result.Ok? || r.result.NotFound?
    ensures r.result.NotFound? <==> !HasEmployee(db.employees, id)
    ensures r.result.NotFound? ==> r.db == db
    ensures r.result.Ok? ==> |r.db.employees| == |db.employees| - 1
    ensures forall e :: e in r.db.employees <==> e in db.employees && e.id != id
    ensures forall a :: a in r.db.attendance <==> a in db.attendance && a.employeeId != id
  {
    match IndexOfEmployee(db.employees, id)
    case None =>
      NoRowsOfUnknown(db, id);
      Reply(NotFound, db)
    case Some(k) =>
      CascadeKeepsConsistent(db.employees, db.attendance, k);
      RemovedById(db.employees, k);
      Reply(Ok(()), Db(db.employees[..k] + db.employees[k + 1..], WithoutEmployee(db.attendance, id)))
  }

  /** After a delete the employee is unknown to `get_employee` and
      `get_attendance` lists nothing for them. */
  lemma DeleteThenGone(db: Db, id: string)
    requires Invariant(db) && id != []
    requires DeleteEmployee(db, id).result.Ok?
    ensures var r := DeleteEmployee(db, id);
      && EmployeeDetail(r.db.employees, r.db.attendance, id) == NotFound
      && Listing(r.db.attendance, Filter(Some(id), None)) == []
  {
  }

  lemma NoRowsOfUnknown(db: Db, id: string)
    requires Invariant(db) && !HasEmployee(db.employees, id)
    ensures forall a | a in db.attendance :: a.employeeId != id
  {
  }

  lemma RemovedById(emps: seq<Employee>, k: nat)
    requires EmployeesValid(emps) && k < |emps|
    ensures forall e :: e in emps[..k] + emps[k + 1..] <==> e in emps && e.id != emps[k].id
  {
    RemoveAtElements(emps, k);
    var rest := emps[..k] + emps[k + 1..];
    forall e | e in rest ensures e.id != emps[k].id {
      var j :| 0 <= j < |rest| && rest[j] == e;
      var j' := if j < k then j else j + 1;
      assert emps[j'] == e;
    }
    forall e | e in emps && e.id != emps[k].id ensures e in rest {
      var j :| 0 <= j < |emps| && emps[j] == e;
    }
  }

  // ----- mark_attendance -----

  /** `mark_attendance`: 404 when no employee has the id; otherwise an
      upsert on `(employee_id, date)`. An existing row keeps its id and
      place and takes the new status and time; otherwise a row with the
      fresh id is appended. The employees are untouched. */
  function MarkAttendance(db: Db, req: AttendanceCreate, newId: string, now: string): (r: Reply<AttendanceRecord>)
    requires Invariant(db) && !HasRecord(db.attendance, newId)
    ensures Invariant(r.db) && r.db.employees == db.employees
    ensures r.result.Ok? || r.result.NotFound?
    ensures r.result.NotFound? <==> !HasEmployee(db.employees, req.employeeId)
    ensures r.result.NotFound? ==> r.db == db
    ensures r.result.Ok? ==>
      var a := r.result.value;
      a.employeeId == req.employeeId && a.date == req.date && a.status == req.status && a.createdAt == now
    ensures r.result.Ok? ==>
      forall k | 0 <= k < |db.attendance| && DayKey(db.attendance[k]) == (req.employeeId, req.date) ::
        r.result.value.id == db.attendance[k].id && r.db.attendance == db.attendance[k := r.result.value]
    ensures r.result.Ok? && (forall k | 0 <= k < |db.attendance| :: DayKey(db.attendance[k]) != (req.employeeId, req.date)) ==>
      r.result.value.id == newId && r.db.attendance == db.attendance + [r.result.value]
  {
    if IndexOfEmployee(db.employees, req.employeeId).None? then Reply(NotFound, db)
    else match IndexOfDay(db.attendance, req.employeeId, req.date)
      case Some(k) =>
        var a := AttendanceRecord(db.attendance[k].id, req.employeeId, req.date, req.status, now);
        UpdateKeepsConsistent(db, k, a);
        DayIsUnique(db.attendance, k);
        Reply(Ok(a), Db(db.employees, db.attendance[k := a]))
      case None =>
        var a := AttendanceRecord(newId, req.employeeId, req.date, req.status, now);
        AppendKeepsConsistent(db, a);
        Reply(Ok(a), Db(db.employees, db.attendance + [a]))
  }

  /** After marking, `get_attendance` for that employee and day lists
      exactly the record just written. */
  lemma MarkThenList(db: Db, req: AttendanceCreate, newId: string, now: string)
    requires Invariant(db) && !HasRecord(db.attendance, newId)
    requires req.employeeId != [] && req.date != []
    requires MarkAttendance(db, req, newId, now).result.Ok?
    ensures var r := MarkAttendance(db, req, newId, now);
      Listing(r.db.attendance, Filter(Some(req.employeeId), Some(req.date))) == [r.result.value]
  {
    var r := MarkAttendance(db, req, newId, now);
    var rec := r.result.value;
    var att := r.db.attendance;
    MarkedRowPresent(db, req, newId, now);
    forall a | a in att && Matches(a, Filter(Some(req.employeeId), Some(req.date))) ensures a == rec {
      var i :| 0 <= i < |att| && att[i] == a;
      var j :| 0 <= j < |att| && att[j] == rec;
      KeyDetermines(att, DayKey, i, j);
    }
    ListingOfOne(att, Filter(Some(req.employeeId), Some(req.date)), rec);
  }

  lemma MarkedRowPresent(db: Db, req: AttendanceCreate, newId: string, now: string)
    requires Invariant(db) && !HasRecord(db.attendance, newId)
    requires MarkAttendance(db, req, newId, now).result.Ok?
    ensures var r := MarkAttendance(db, req, newId, now);
      r.result.value in r.db.attendance
  {
    var r := MarkAttendance(db, req, newId, now);
    if k :| 0 <= k < |db.attendance| && DayKey(db.attendance[k]) == (req.employeeId, req.date) {
      assert r.db.attendance[k] == r.result.value;
    } else {
      assert r.db.attendance[|db.attendance|] == r.result.value;
    }
  }

  /** Marking the same employee and day twice keeps one row, under the id
      the first mark gave it, with the second status. */
  lemma MarkTwice(db: Db, req: AttendanceCreate, newId: string, now: string, status2: Status, newId2: string, now2: string)
    requires Invariant(db) && !HasRecord(db.attendance, newId)
    requires MarkAttendance(db, req, newId, now).result.Ok?
    requires !HasRecord(MarkAttendance(db, req, newId, now).db.attendance, newId2)
    ensures
      var r1 := MarkAttendance(db, req, newId, now);
      var r2 := MarkAttendance(r1.db, req.(status := status2), newId2, now2);
      && r2.result.Ok? && r2.result.value.id == r1.result.value.id && r2.result.value.status == status2
      && |r2.db.attendance| == |r1.db.attendance|
  {
    var r1 := MarkAttendance(db, req, newId, now);
    var att := r1.db.attendance;
    var k: nat :| k < |att| && DayKey(att[k]) == (req.employeeId, req.date) by {
      if k :| 0 <= k < |db.attendance| && DayKey(db.attendance[k]) == (req.employeeId, req.date) {
        assert DayKey(att[k]) == (req.employeeId, req.date);
      } else {
        assert DayKey(att[|db.attendance|]) == (req.employeeId, req.date);
      }
    }
    assert att[k].id == r1.result.value.id by {
      if m :| 0 <= m < |db.attendance| && DayKey(db.attendance[m]) == (req.employeeId, req.date) {
        DayIsUnique(att, k);
        assert DayKey(att[m]) == (req.employeeId, req.date);
      } else {
        DayIsUnique(att, k);
        assert DayKey(att[|db.attendance|]) == (req.employeeId, req.date);
      }
    }
  }

  lemma DayIsUnique(att: seq<AttendanceRecord>, k: nat)
    requires KeysDistinct(att, DayKey) && k < |att|
    ensures forall m | 0 <= m < |att| && DayKey(att[m]) == DayKey(att[k]) :: m == k
  {
    forall m | 0 <= m < |att| && DayKey(att[m]) == DayKey(att[k]) ensures m == k {
      KeyDetermines(att, DayKey, m, k);
    }
  }

  lemma UpdateKeepsConsistent(db: Db, k: nat, a: AttendanceRecord)
    requires Invariant(db) && k < |db.attendance|
    requires a.id == db.attendance[k].id && DayKey(a) == DayKey(db.attendance[k])
    ensures Invariant(Db(db.employees, db.attendance[k := a]))
  {
    DistinctUpdate(db.attendance, RecordId, k, a);
    DistinctUpdate(db.attendance, DayKey, k, a);
    var att := db.attendance[k := a];
    assert forall i | 0 <= i < |att| :: att[i].employeeId == db.attendance[i].employeeId;
  }

  lemma AppendKeepsConsistent(db: Db, a: AttendanceRecord)
    requires Invariant(db) && HasEmployee(db.employees, a.employeeId) && !HasRecord(db.attendance, a.id)
    requires forall k | 0 <= k < |db.attendance| :: DayKey(db.attendance[k]) != DayKey(a)
    ensures Invariant(Db(db.employees, db.attendance + [a]))
  {
    DistinctAppend(db.attendance, RecordId, a);
    DistinctAppend(db.attendance, DayKey, a);
    var att := db.attendance + [a];
    assert forall i | 0 <= i < |att| :: att[i] == if i < |db.attendance| then db.attendance[i] else a;
  }

  // ----- delete_attendance -----

  /** `delete_attendance`: 404 for an unknown record id, otherwise that one
      row is gone and nothing else changes. */
  function DeleteAttendance(db: Db, recordId: string): (r: Reply<()>)
    requires Invariant(db)
    ensures Invariant(r.db) && r.db.employees == db.employees
    ensures r.result.Ok? || r.result.NotFound?
    ensures r.result.NotFound? <==> !HasRecord(db.attendance, recordId)
    ensures r.result.NotFound? ==> r.db == db
    ensures r.result.Ok? ==> |r.db.attendance| == |db.attendance| - 1
    ensures forall a :: a in r.db.attendance <==> a in db.attendance && a.id != recordId
  {
    match IndexOfRecord(db.attendance, recordId)
    case None => Reply(NotFound, db)
    case Some(k) =>
      RemoveRecordKeepsConsistent(db.employees, db.attendance, k);
      RemovedRecordById(db.attendance, k);
      Reply(Ok(()), Db(db.employees, db.attendance[..k] + db.attendance[k + 1..]))
  }

  lemma RemovedRecordById(att: seq<AttendanceRecord>, k: nat)
    requires KeysDistinct(att, RecordId) && k < |att|
    ensures forall a :: a in att[..k] + att[k + 1..] <==> a in att && a.id != att[k].id
  {
    RemoveAtElements(att, k);
    var rest := att[..k] + att[k + 1..];
    forall a | a in rest ensures a.id != att[k].id {
      var j :| 0 <= j < |rest| && rest[j] == a;
      var j' := if j < k then j else j + 1;
      assert att[j'] == a;
    }
    forall a | a in att && a.id != att[k].id ensures a in rest {
      var j :| 0 <= j < |att| && att[j] == a;
    }
  }
}

/** The read side of the API: the aggregate queries of `get_employees`,
    `get_employee`, `get_attendance` and `get_dashboard_stats`
    (backend/main.py), each as a function of the two tables. */
module Reports {
  import opened Seqs
  import opened Tables
  import Sorting

  // ----- counting -----

  /** `SUM(CASE WHEN status = s THEN 1 ELSE 0 END)` over some rows. */
  function CountStatus(rows: seq<AttendanceRecord>, s: Status): (n: nat)
    ensures n <= |rows|
  {
    if rows == [] then 0
    else CountStatus(rows[..|rows| - 1], s) + (if rows[|rows| - 1].status == s then 1 else 0)
  }

  /** The count of a status is the number of positions holding a row of
      that status. */
  lemma {:induction false} CountStatusCounts(rows: seq<AttendanceRecord>, s: Status)
    ensures CountStatus(rows, s) == |set i | 0 <= i < |rows| && rows[i].status == s|
  {
    if rows != [] {
      CountStatusCounts(rows[..|rows| - 1], s);
      StatusIndicesStep(rows, s);
    }
  }

  lemma StatusIndicesStep(rows: seq<AttendanceRecord>, s: Status)
    requires rows != []
    ensures var init := rows[..|rows| - 1];
      |set i | 0 <= i < |rows| && rows[i].status == s| ==
      |set i | 0 <= i < |init| && init[i].status == s| + (if rows[|rows| - 1].status == s then 1 else 0)
  {
    var k := |rows| - 1;
    var init := rows[..k];
    var a := set i | 0 <= i < |init| && init[i].status == s;
    var b := set i | 0 <= i < |rows| && rows[i].status == s;
    assert forall i | 0 <= i < k :: init[i] == rows[i];
    if rows[k].status == s {
      assert b == a + {k};
    } else {
      assert b == a;
    }
  }

  /** One more row adds one to the count of its own status. */
  lemma CountAppend(rows: seq<AttendanceRecord>, x: AttendanceRecord, s: Status)
    ensures CountStatus(rows + [x], s) == CountStatus(rows, s) + (if x.status == s then 1 else 0)
  {
    assert (rows + [x])[..|rows|] == rows;
  }

  /** Every row is either present or absent, so the two counts add up. */
  lemma {:induction false} StatusPartition(rows: seq<AttendanceRecord>)
    ensures CountStatus(rows, Present) + CountStatus(rows, Absent) == |rows|
  {
    if rows != [] {
      StatusPartition(rows[..|rows| - 1]);
    }
  }

  /** The rows of one employee, in table order (`LEFT JOIN attendance a ON
      e.id = a.employee_id`). */
  function OfEmployee(att: seq<AttendanceRecord>, id: string): (r: seq<AttendanceRecord>)
    ensures |r| <= |att|
    ensures forall a :: a in r <==> a in att && a.employeeId == id
  {
    if att == [] then []
    else
      var last := att[|att| - 1];
      assert att == att[..|att| - 1] + [last];
      OfEmployee(att[..|att| - 1], id) + (if last.employeeId == id then [last] else [])
  }

  /** The rows of one day (`WHERE date = ?`), in table order. */
  function OnDate(att: seq<AttendanceRecord>, date: string): (r: seq<AttendanceRecord>)
    ensures |r| <= |att|
    ensures forall a :: a in r <==> a in att && a.date == date
  {
    if att == [] then []
    else
      var last := att[|att| - 1];
      assert att == att[..|att| - 1] + [last];
      OnDate(att[..|att| - 1], date) + (if last.date == date then [last] else [])
  }

  /** `OfEmployee` keeps each row of the employee as often as the table
      holds it, and no other row. */
  lemma {:induction false} OfEmployeeKeepsRows(att: seq<AttendanceRecord>, id: string)
    ensures forall a :: multiset(OfEmployee(att, id))[a] == if a.employeeId == id then multiset(att)[a] else 0
  {
    if att != [] {
      var init := att[..|att| - 1];
      OfEmployeeKeepsRows(init, id);
      assert att == init + [att[|att| - 1]];
    }
  }

  /** `OnDate` keeps each row of the day as often as the table holds it, and
      no other row. */
  lemma {:induction false} OnDateKeepsRows(att: seq<AttendanceRecord>, date: string)
    ensures forall a :: multiset(OnDate(att, date))[a] == if a.date == date then multiset(att)[a] else 0
  {
    if att != [] {
      var init := att[..|att| - 1];
      OnDateKeepsRows(init, date);
      assert att == init + [att[|att| - 1]];
    }
  }

  /** Restricting to one day counts no more rows of a status than the whole
      table holds. */
  lemma {:induction false} OnDateCountBound(att: seq<AttendanceRecord>, date: string, s: Status)
    ensures CountStatus(OnDate(att, date), s) <= CountStatus(att, s)
  {
    if att != [] {
      var init := att[..|att| - 1];
      var last := att[|att| - 1];
      OnDateCountBound(init, date, s);
      var d0 := OnDate(init, date);
      var r := OnDate(att, date);
      if last.date == date {
        assert r == d0 + [last];
        assert r[..|r| - 1] == d0;
      } else {
        assert r == d0 + [];
        assert r == d0;
      }
    }
  }

  /** The per-status count of one employee's rows, as `SUM(CASE ...)`
      over the `LEFT JOIN` computes it: the positions of the table holding
      a row of that employee with that status. */
  lemma {:induction false} CountOfEmployee(att: seq<AttendanceRecord>, id: string, s: Status)
    ensures CountStatus(OfEmployee(att, id), s) ==
      |set i | 0 <= i < |att| && att[i].employeeId == id && att[i].status == s|
  {
    if att != [] {
      var init := att[..|att| - 1];
      var last := att[|att| - 1];
      CountOfEmployee(init, id, s);
      EmployeeIndicesStep(att, id, s);
      if last.employeeId == id {
        CountAppend(OfEmployee(init, id), last, s);
      } else {
        assert OfEmployee(att, id) == OfEmployee(init, id) + [];
        assert OfEmployee(att, id) == OfEmployee(init, id);
      }
    }
  }

  lemma EmployeeIndicesStep(att: seq<AttendanceRecord>, id: string, s: Status)
    requires att != []
    ensures var init := att[..|att| - 1]; var last := att[|att| - 1];
      |set i | 0 <= i < |att| && att[i].employeeId == id && att[i].status == s| ==
      |set i | 0 <= i < |init| && init[i].employeeId == id && init[i].status == s| +
      (if last.employeeId == id && last.status == s then 1 else 0)
  {
    var k := |att| - 1;
    var init := att[..k];
    var a := set i | 0 <= i < |init| && init[i].employeeId == id && init[i].status == s;
    var b := set i | 0 <= i < |att| && att[i].employeeId == id && att[i].status == s;
    assert forall i | 0 <= i < k :: init[i] == att[i];
    if att[k].employeeId == id && att[k].status == s {
      assert b == a + {k};
    } else {
      assert b == a;
    }
  }

  /** The per-status count of one day's rows (`WHERE date = ? AND status =
      ...`): the positions holding a row of that day with that status. */
  lemma {:induction false} CountOnDate(att: seq<AttendanceRecord>, date: string, s: Status)
    ensures CountStatus(OnDate(att, date), s) ==
      |set i | 0 <= i < |att| && att[i].date == date && att[i].status == s|
  {
    if att != [] {
      var init := att[..|att| - 1];
      var last := att[|att| - 1];
      CountOnDate(init, date, s);
      DayIndicesStep(att, date, s);
      if last.date == date {
        CountAppend(OnDate(init, date), last, s);
      } else {
        assert OnDate(att, date) == OnDate(init, date) + [];
        assert OnDate(att, date) == OnDate(init, date);
      }
    }
  }

  lemma DayIndicesStep(att: seq<AttendanceRecord>, date: string, s: Status)
    requires att != []
    ensures var init := att[..|att| - 1]; var last := att[|att| - 1];
      |set i | 0 <= i < |att| && att[i].date == date && att[i].status == s| ==
      |set i | 0 <= i < |init| && init[i].date == date && init[i].status == s| +
      (if last.date == date && last.status == s then 1 else 0)
  {
    var k := |att| - 1;
    var init := att[..k];
    var a := set i | 0 <= i < |init| && init[i].date == date && init[i].status == s;
    var b := set i | 0 <= i < |att| && att[i].date == date && att[i].status == s;
    assert forall i | 0 <= i < k :: init[i] == att[i];
    if att[k].date == date && att[k].status == s {
      assert b == a + {k};
    } else {
      assert b == a;
    }
  }

  // ----- one employee -----

  /** A row of `get_employees` or the answer of `get_employee`. */
  datatype EmployeeWithAttendance = EmployeeWithAttendance(employee: Employee, presentDays: nat, absentDays: nat)

  /** The employee with the `present_days` / `absent_days` counts of the
      `GROUP BY e.id` aggregate; `COALESCE(..., 0)` makes an employee
      without rows count zero of each. */
  function Summary(att: seq<AttendanceRecord>, e: Employee): (r: EmployeeWithAttendance)
    ensures r.employee == e
    ensures r.presentDays == |set i | 0 <= i < |att| && att[i].employeeId == e.id && att[i].status == Present|
    ensures r.absentDays == |set i | 0 <= i < |att| && att[i].employeeId == e.id && att[i].status == Absent|
    ensures r.presentDays + r.absentDays == |OfEmployee(att, e.id)|
    ensures r.presentDays + r.absentDays == 0 <==> forall a | a in att :: a.employeeId != e.id
  {
    var rows := OfEmployee(att, e.id);
    StatusPartition(rows);
    CountOfEmployee(att, e.id, Present);
    CountOfEmployee(att, e.id, Absent);
    assert rows != [] ==> rows[0] in att;
    EmployeeWithAttendance(e, CountStatus(rows, Present), CountStatus(rows, Absent))
  }

  /** The employees the rows of an answer are about, in answer order. */
  function EmployeesOf(rows: seq<EmployeeWithAttendance>): (r: seq<Employee>)
    ensures |r| == |rows| && forall k | 0 <= k < |rows| :: r[k] == rows[k].employee
  {
    seq(|rows|, k requires 0 <= k < |rows| => rows[k].employee)
  }

  /** `get_employee`: the summary of the employee with internal id `id`, or
      404 when there is none. */
  function EmployeeDetail(emps: seq<Employee>, att: seq<AttendanceRecord>, id: string): (r: Result<EmployeeWithAttendance>)
    ensures r.Ok? || r.NotFound?
    ensures r.NotFound? <==> !HasEmployee(emps, id)
    ensures r.Ok? ==> r.value.employee in emps && r.value.employee.id == id
    ensures r.Ok? ==> r.value.presentDays == |set i | 0 <= i < |att| && att[i].employeeId == id && att[i].status == Present|
    ensures r.Ok? ==> r.value.absentDays == |set i | 0 <= i < |att| && att[i].employeeId == id && att[i].status == Absent|
    ensures r.Ok? ==> r.value.presentDays + r.value.absentDays == |OfEmployee(att, id)|
  {
    match IndexOfEmployee(emps, id)
    case None => NotFound
    case Some(k) => Ok(Summary(att, emps[k]))
  }

  /** With unique ids the answer is about the one employee holding `id`. */
  lemma EmployeeDetailIsUnique(emps: seq<Employee>, att: seq<AttendanceRecord>, k: nat)
    requires EmployeesValid(emps) && k < |emps|
    ensures EmployeeDetail(emps, att, emps[k].id) == Ok(Summary(att, emps[k]))
  {
    var r := IndexOfEmployee(emps, emps[k].id);
    KeyDetermines(emps, RowId, r.value, k);
  }

  /** `ORDER BY e.created_at DESC` */
  function CreatedKey(e: Employee): seq<string> { [e.createdAt] }

  /** The employees in the order `get_employees` lists them. */
  function EmployeesByCreation(emps: seq<Employee>): (r: seq<Employee>)
    ensures multiset(r) == multiset(emps)
    ensures |r| == |emps| && forall e :: e in r <==> e in emps
    ensures Sorting.SortedDesc(r, CreatedKey)
  {
    var r := Sorting.SortDesc(emps, CreatedKey);
    assert |r| == |multiset(r)|;
    r
  }

  // ----- attendance listing -----

  /** The optional query parameters of `get_attendance`. */
  datatype Filter = Filter(employeeId: Option<string>, date: Option<string>)

  /** `if employee_id:` in Python: a missing or empty parameter adds no
      condition. */
  predicate Constrains(p: Option<string>) {
    p.Some? && p.value != []
  }

  predicate Matches(a: AttendanceRecord, f: Filter) {
    && (Constrains(f.employeeId) ==> a.employeeId == f.employeeId.value)
    && (Constrains(f.date) ==> a.date == f.date.value)
  }

  /** `WHERE 1=1 [AND employee_id = ?] [AND date = ?]`, in table order. */
  function Where(att: seq<AttendanceRecord>, f: Filter): (r: seq<AttendanceRecord>)
    ensures forall a :: multiset(r)[a] == if Matches(a, f) then multiset(att)[a] else 0
    ensures forall a :: a in r <==> a in att && Matches(a, f)
  {
    if att == [] then []
    else
      var last := att[|att| - 1];
      assert att == att[..|att| - 1] + [last];
      Where(att[..|att| - 1], f) + (if Matches(last, f) then [last] else [])
  }

  /** `ORDER BY date DESC, created_at DESC` */
  function AttendanceKey(a: AttendanceRecord): seq<string> { [a.date, a.createdAt] }

  /** The rows `get_attendance` returns, in its order. */
  function Listing(att: seq<AttendanceRecord>, f: Filter): (r: seq<AttendanceRecord>)
    ensures forall a :: multiset(r)[a] == if Matches(a, f) then multiset(att)[a] else 0
    ensures forall a :: a in r <==> a in att && Matches(a, f)
    ensures Sorting.SortedDesc(r, AttendanceKey)
  {
    Sorting.SortDesc(Where(att, f), AttendanceKey)
  }

  /** When one row of a table with unique ids matches, it is the whole
      listing. */
  lemma ListingOfOne(att: seq<AttendanceRecord>, f: Filter, x: AttendanceRecord)
    requires KeysDistinct(att, RecordId) && x in att && Matches(x, f)
    requires forall a | a in att && Matches(a, f) :: a == x
    ensures Listing(att, f) == [x]
  {
    var l := Listing(att, f);
    KeysDistinctOnce(att, RecordId, x);
    assert multiset(att)[x] == 1 by {
      assert x in multiset(att);
    }
    forall a | a != x ensures multiset(l)[a] == 0 {
      if a in att {
        assert !Matches(a, f);
      } else {
        assert a !in multiset(att);
      }
    }
    SingletonMultiset(l, x);
  }

  lemma SingletonMultiset<T>(l: seq<T>, x: T)
    requires multiset(l)[x] == 1
    requires forall a | a != x :: multiset(l)[a] == 0
    ensures l == [x]
  {
    assert multiset(l) == multiset{x};
    assert |l| == |multiset(l)| == 1;
    assert l[0] in multiset(l);
  }

  /** Leaving a parameter out and passing it empty mean the same. */
  lemma EmptyFilterIsNoFilter(att: seq<AttendanceRecord>, e: Option<string>, d: Option<string>)
    ensures Listing(att, Filter(Some(""), d)) == Listing(att, Filter(None, d))
    ensures Listing(att, Filter(e, Some(""))) == Listing(att, Filter(e, None))
  {
    WhereSameMatches(att, Filter(Some(""), d), Filter(None, d));
    WhereSameMatches(att, Filter(e, Some("")), Filter(e, None));
  }

  lemma {:induction false} WhereSameMatches(att: seq<AttendanceRecord>, f: Filter, g: Filter)
    requires forall a :: Matches(a, f) == Matches(a, g)
    ensures Where(att, f) == Where(att, g)
  {
    if att != [] {
      WhereSameMatches(att[..|att| - 1], f, g);
    }
  }

  /** Without parameters every row is listed. */
  lemma {:induction false} NoFilterListsAll(att: seq<AttendanceRecord>)
    ensures multiset(Listing(att, Filter(None, None))) == multiset(att)
  {
    var r := Listing(att, Filter(None, None));
    forall a ensures multiset(r)[a] == multiset(att)[a] {
      assert Matches(a, Filter(None, None));
    }
  }

  // ----- department distribution -----

  /** `COUNT(*) ... WHERE department = d`: the number of positions holding an
      employee of department `d`. */
  function CountIn(emps: seq<Employee>, d: string): (n: nat)
    ensures n == |set i | 0 <= i < |emps| && emps[i].department == d|
    ensures n <= |emps|
    ensures n == 0 <==> forall i | 0 <= i < |emps| :: emps[i].department != d
  {
    if emps == [] then 0
    else
      var n0 := CountIn(emps[..|emps| - 1], d);
      assert forall i | 0 <= i < |emps| - 1 :: emps[..|emps| - 1][i] == emps[i];
      DepartmentIndicesStep(emps, d);
      n0 + (if emps[|emps| - 1].department == d then 1 else 0)
  }

  lemma DepartmentIndicesStep(emps: seq<Employee>, d: string)
    requires emps != []
    ensures var init := emps[..|emps| - 1];
      |set i | 0 <= i < |emps| && emps[i].department == d| ==
      |set i | 0 <= i < |init| && init[i].department == d| + (if emps[|emps| - 1].department == d then 1 else 0)
  {
    var k := |emps| - 1;
    var init := emps[..k];
    var a := set i | 0 <= i < |init| && init[i].department == d;
    var b := set i | 0 <= i < |emps| && emps[i].department == d;
    assert forall i | 0 <= i < k :: init[i] == emps[i];
    if emps[k].department == d {
      assert b == a + {k};
    } else {
      assert b == a;
    }
  }

  /** The departments in use (`COUNT(DISTINCT department)` counts them). */
  function Departments(emps: seq<Employee>): set<string> {
    set i | 0 <= i < |emps| :: emps[i].department
  }

  /** A department name is its own key: a list of names with distinct keys
      names no department twice. */
  function DepartmentName(d: string): string { d }

  /** The departments in the order of their first employee. */
  function DistinctDepartments(emps: seq<Employee>): (r: seq<string>)
    ensures KeysDistinct(r, DepartmentName)
    ensures forall d :: d in r <==> d in Departments(emps)
  {
    if emps == [] then []
    else
      var init := emps[..|emps| - 1];
      var d := emps[|emps| - 1].department;
      var r0 := DistinctDepartments(init);
      assert forall i | 0 <= i < |init| :: init[i] == emps[i];
      assert forall x :: x in Departments(emps) <==> x in Departments(init) || x == d;
      if d in r0 then r0 else r0 + [d]
  }

  lemma {:induction false} DistinctCardinality(s: seq<string>)
    requires KeysDistinct(s, DepartmentName)
    ensures |set x | x in s| == |s|
  {
    if s != [] {
      var init := s[..|s| - 1];
      DistinctCardinality(init);
      assert (set x | x in s) == (set x | x in init) + {s[|s| - 1]};
      assert s[|s| - 1] !in init;
    }
  }

  /** One row of the department distribution. */
  datatype DepartmentCount = DepartmentCount(name: string, count: nat)

  function CountName(c: DepartmentCount): string { c.name }

  /** `ORDER BY count DESC`: `x` goes in front of the first row whose count
      is not larger than its own. */
  function InsertByCount(x: DepartmentCount, t: seq<DepartmentCount>): (r: seq<DepartmentCount>)
    ensures multiset(r) == multiset(t) + multiset{x}
    ensures |r| == |t| + 1
    ensures forall y :: y in r <==> y == x || y in t
  {
    if t == [] || t[0].count <= x.count then [x] + t
    else
      assert t == [t[0]] + t[1..];
      [t[0]] + InsertByCount(x, t[1..])
  }

  predicate ByCountDesc(t: seq<DepartmentCount>) {
    forall i, j | 0 <= i < j < |t| :: t[i].count >= t[j].count
  }

  predicate NameFree(t: seq<DepartmentCount>, name: string) {
    forall i | 0 <= i < |t| :: t[i].name != name
  }

  lemma {:induction false} InsertByCountKeeps(x: DepartmentCount, t: seq<DepartmentCount>)
    requires ByCountDesc(t) && KeysDistinct(t, CountName) && NameFree(t, x.name)
    ensures ByCountDesc(InsertByCount(x, t)) && KeysDistinct(InsertByCount(x, t), CountName)
  {
    if t == [] || t[0].count <= x.count {
      ConsKeepsOrder(x, t);
    } else {
      var tail := t[1..];
      assert ByCountDesc(tail) && KeysDistinct(tail, CountName) && NameFree(tail, x.name) by {
        forall i | 0 <= i < |tail| ensures tail[i] == t[i + 1] { }
      }
      InsertByCountKeeps(x, tail);
      var rest := InsertByCount(x, tail);
      forall k | 0 <= k < |rest| ensures rest[k].count <= t[0].count && rest[k].name != t[0].name {
        assert rest[k] in rest;
        if rest[k] != x {
          var m :| 0 <= m < |tail| && tail[m] == rest[k];
          assert t[m + 1] == rest[k];
        }
      }
      ConsKeepsOrder(t[0], rest);
    }
  }

  /** A group at least as large as, and named apart from, every group of a
      sorted list can go in front of it. */
  lemma ConsKeepsOrder(h: DepartmentCount, rest: seq<DepartmentCount>)
    requires ByCountDesc(rest) && KeysDistinct(rest, CountName)
    requires forall k | 0 <= k < |rest| :: rest[k].count <= h.count && rest[k].name != h.name
    ensures ByCountDesc([h] + rest) && KeysDistinct([h] + rest, CountName)
  {
    var r := [h] + rest;
    forall i, j | 0 <= i < j < |r| ensures r[i].count >= r[j].count && r[i].name != r[j].name {
      assert r[j] == rest[j - 1];
      if i > 0 { assert r[i] == rest[i - 1]; }
    }
  }

  /** Insertion sort by count, descending; groups with equal counts keep
      their order. */
  function SortByCount(t: seq<DepartmentCount>): (r: seq<DepartmentCount>)
    requires KeysDistinct(t, CountName)
    ensures |r| == |t|
    ensures forall y :: y in r <==> y in t
    ensures ByCountDesc(r) && KeysDistinct(r, CountName)
  {
    if t == [] then []
    else
      var tail := t[1..];
      NamesDistinctTail(t);
      var rest := SortByCount(tail);
      assert NameFree(rest, t[0].name) by {
        forall i | 0 <= i < |rest| ensures rest[i].name != t[0].name {
          assert rest[i] in tail;
          var m :| 0 <= m < |tail| && tail[m] == rest[i];
          assert t[m + 1] == rest[i];
        }
      }
      InsertByCountKeeps(t[0], rest);
      assert t == [t[0]] + tail;
      InsertByCount(t[0], rest)
  }

  lemma NamesDistinctTail(t: seq<DepartmentCount>)
    requires KeysDistinct(t, CountName) && t != []
    ensures KeysDistinct(t[1..], CountName)
  {
    var tail := t[1..];
    forall i | 0 <= i < |tail| ensures tail[i] == t[i + 1] { }
  }

  /** The sort keeps each group exactly as often as it was given. */
  lemma {:induction false} SortByCountPermutes(t: seq<DepartmentCount>)
    requires KeysDistinct(t, CountName)
    ensures multiset(SortByCount(t)) == multiset(t)
  {
    if t != [] {
      var tail := t[1..];
      NamesDistinctTail(t);
      SortByCountPermutes(tail);
      assert t == [t[0]] + tail;
    }
  }

  function SumCounts(t: seq<DepartmentCount>): nat {
    if t == [] then 0 else SumCounts(t[..|t| - 1]) + t[|t| - 1].count
  }

  /** `SELECT department, COUNT(*) FROM employees GROUP BY department ORDER
      BY count DESC`. */
  function DepartmentDistribution(emps: seq<Employee>): (r: seq<DepartmentCount>)
    ensures KeysDistinct(r, CountName) && ByCountDesc(r)
    ensures forall d :: d in Departments(emps) <==> exists k | 0 <= k < |r| :: r[k].name == d
    ensures forall k | 0 <= k < |r| :: r[k].count == CountIn(emps, r[k].name) && r[k].count > 0
  {
    var names := DistinctDepartments(emps);
    var groups := Groups(emps, names);
    var r := SortByCount(groups);
    DistributionFacts(emps, names, groups, r);
    r
  }

  /** One row per listed name, with its `COUNT(*)`. */
  function Groups(emps: seq<Employee>, names: seq<string>): (g: seq<DepartmentCount>)
    requires KeysDistinct(names, DepartmentName)
    ensures |g| == |names| && KeysDistinct(g, CountName)
    ensures forall i | 0 <= i < |g| :: g[i] == DepartmentCount(names[i], CountIn(emps, names[i]))
  {
    var g := seq(|names|, i requires 0 <= i < |names| => DepartmentCount(names[i], CountIn(emps, names[i])));
    assert forall i | 0 <= i < |g| :: CountName(g[i]) == names[i];
    g
  }

  lemma DistributionFacts(emps: seq<Employee>, names: seq<string>, groups: seq<DepartmentCount>, r: seq<DepartmentCount>)
    requires names == DistinctDepartments(emps) && groups == Groups(emps, names)
    requires forall y :: y in r <==> y in groups
    ensures forall d :: d in Departments(emps) <==> exists k | 0 <= k < |r| :: r[k].name == d
    ensures forall k | 0 <= k < |r| :: r[k].count == CountIn(emps, r[k].name) && r[k].count > 0
  {
    forall k | 0 <= k < |r| ensures r[k].count == CountIn(emps, r[k].name) && r[k].count > 0 && r[k].name in Departments(emps) {
      assert r[k] in groups;
      var m :| 0 <= m < |groups| && groups[m] == r[k];
      assert names[m] in Departments(emps);
    }
    forall d | d in Departments(emps) ensures exists k | 0 <= k < |r| :: r[k].name == d {
      var m :| 0 <= m < |names| && names[m] == d;
      assert groups[m] in r;
    }
  }

  /** The departments listed are exactly `COUNT(DISTINCT department)` many,
      and their counts add up to the number of employees. */
  lemma DistributionTotals(emps: seq<Employee>)
    ensures |DepartmentDistribution(emps)| == |Departments(emps)|
    ensures SumCounts(DepartmentDistribution(emps)) == |emps|
  {
    var r := DepartmentDistribution(emps);
    var names := NamesOf(r);
    DistinctCardinality(names);
    NamesAreDepartments(emps, r);
    CountsCoverEmployees(emps, r);
  }

  function NamesOf(t: seq<DepartmentCount>): (names: seq<string>)
    requires KeysDistinct(t, CountName)
    ensures |names| == |t| && KeysDistinct(names, DepartmentName)
    ensures forall k | 0 <= k < |t| :: names[k] == t[k].name
  {
    var names := seq(|t|, k requires 0 <= k < |t| => t[k].name);
    assert forall k | 0 <= k < |t| :: names[k] == CountName(t[k]);
    names
  }

  lemma NamesAreDepartments(emps: seq<Employee>, r: seq<DepartmentCount>)
    requires r == DepartmentDistribution(emps)
    ensures (set x | x in NamesOf(r)) == Departments(emps)
  {
    var names := NamesOf(r);
    forall x ensures x in names <==> x in Departments(emps) {
      if x in Departments(emps) {
        var k :| 0 <= k < |r| && r[k].name == x;
        assert names[k] == x;
      }
    }
  }

  /** Sum of `CountIn(emps, t[k].name)` over a list. */
  function SumOver(t: seq<DepartmentCount>, emps: seq<Employee>): nat {
    if t == [] then 0 else SumOver(t[..|t| - 1], emps) + CountIn(emps, t[|t| - 1].name)
  }

  lemma {:induction false} SumOverIsSum(t: seq<DepartmentCount>, emps: seq<Employee>)
    requires forall k | 0 <= k < |t| :: t[k].count == CountIn(emps, t[k].name)
    ensures SumOver(t, emps) == SumCounts(t)
  {
    if t != [] {
      SumOverIsSum(t[..|t| - 1], emps);
    }
  }

  /** Adding one employee adds one to the sum when its department is listed
      once. */
  lemma {:induction false} SumOverAppend(t: seq<DepartmentCount>, emps: seq<Employee>, e: Employee)
    requires KeysDistinct(t, CountName)
    ensures SumOver(t, emps + [e]) == SumOver(t, emps) + (if exists k | 0 <= k < |t| :: t[k].name == e.department then 1 else 0)
  {
    if t != [] {
      var init := t[..|t| - 1];
      assert KeysDistinct(init, CountName) by {
        forall i | 0 <= i < |init| ensures init[i] == t[i] { }
      }
      SumOverAppend(init, emps, e);
      assert (emps + [e])[..|emps|] == emps;
      if t[|t| - 1].name == e.department {
        forall k | 0 <= k < |init| ensures init[k].name != e.department {
          assert init[k] == t[k];
        }
      } else {
        if exists k | 0 <= k < |t| :: t[k].name == e.department {
          var k :| 0 <= k < |t| && t[k].name == e.department;
          assert init[k] == t[k];
        }
      }
    }
  }

  lemma {:induction false} SumOverCovers(t: seq<DepartmentCount>, emps: seq<Employee>)
    requires KeysDistinct(t, CountName)
    requires forall i | 0 <= i < |emps| :: exists k | 0 <= k < |t| :: t[k].name == emps[i].department
    ensures SumOver(t, emps) == |emps|
  {
    if emps == [] {
      SumOverZero(t, emps);
    } else {
      var init := emps[..|emps| - 1];
      var e := emps[|emps| - 1];
      assert forall i | 0 <= i < |init| :: init[i] == emps[i];
      SumOverCovers(t, init);
      assert init + [e] == emps;
      SumOverAppend(t, init, e);
    }
  }

  lemma {:induction false} SumOverZero(t: seq<DepartmentCount>, emps: seq<Employee>)
    requires emps == []
    ensures SumOver(t, emps) == 0
  {
    if t != [] {
      SumOverZero(t[..|t| - 1], emps);
    }
  }

  lemma CountsCoverEmployees(emps: seq<Employee>, r: seq<DepartmentCount>)
    requires r == DepartmentDistribution(emps)
    ensures SumCounts(r) == |emps|
  {
    forall i | 0 <= i < |emps| ensures exists k | 0 <= k < |r| :: r[k].name == emps[i].department {
      assert emps[i].department in Departments(emps);
    }
    SumOverCovers(r, emps);
    SumOverIsSum(r, emps);
  }

  // ----- dashboard -----

  datatype DashboardStats = DashboardStats(
    totalEmployees: nat,
    totalDepartments: nat,
    presentToday: nat,
    absentToday: nat,
    totalPresent: nat,
    totalAbsent: nat,
    departments: seq<DepartmentCount>)

  /** `get_dashboard_stats`, with `date.today().isoformat()` as `today`. */
  function Dashboard(emps: seq<Employee>, att: seq<AttendanceRecord>, today: string): (r: DashboardStats)
    ensures r.totalEmployees == |emps| && r.totalDepartments == |Departments(emps)|
    ensures r.totalDepartments == |r.departments| && SumCounts(r.departments) == r.totalEmployees
    ensures r.totalPresent == |set i | 0 <= i < |att| && att[i].status == Present|
    ensures r.totalAbsent == |set i | 0 <= i < |att| && att[i].status == Absent|
    ensures r.presentToday == |set i | 0 <= i < |att| && att[i].date == today && att[i].status == Present|
    ensures r.absentToday == |set i | 0 <= i < |att| && att[i].date == today && att[i].status == Absent|
    ensures r.totalPresent + r.totalAbsent == |att|
    ensures r.presentToday + r.absentToday == |OnDate(att, today)|
    ensures r.presentToday <= r.totalPresent && r.absentToday <= r.totalAbsent
    ensures r.departments == DepartmentDistribution(emps)
  {
    var day := OnDate(att, today);
    StatusPartition(att);
    StatusPartition(day);
    OnDateCountBound(att, today, Present);
    OnDateCountBound(att, today, Absent);
    CountStatusCounts(att, Present);
    CountStatusCounts(att, Absent);
    CountOnDate(att, today, Present);
    CountOnDate(att, today, Absent);
    DistributionTotals(emps);
    DashboardStats(
      |emps|,
      |Departments(emps)|,
      CountStatus(day, Present),
      CountStatus(day, Absent),
      CountStatus(att, Present),
      CountStatus(att, Absent),
      DepartmentDistribution(emps))
  }

  /** The employees with a row on day `d`. */
  function DayIds(att: seq<AttendanceRecord>, d: string): set<string> {
    set i | 0 <= i < |att| && att[i].date == d :: att[i].employeeId
  }

  function EmployeeIds(emps: seq<Employee>): set<string> {
    set i | 0 <= i < |emps| :: emps[i].id
  }

  /** With one row per employee and day, the rows of a day are as many as
      the employees they name. */
  lemma {:induction false} DayRowsPerEmployee(att: seq<AttendanceRecord>, d: string)
    requires KeysDistinct(att, DayKey)
    ensures |OnDate(att, d)| == |DayIds(att, d)|
  {
    if att != [] {
      var init := att[..|att| - 1];
      var last := att[|att| - 1];
      DistinctInit(att);
      DayRowsPerEmployee(init, d);
      DayIdsStep(att, d);
      if last.date == d {
        LastDayIsNew(att, d);
      } else {
        assert OnDate(att, d) == OnDate(init, d) + [];
      }
    }
  }

  lemma DistinctInit(att: seq<AttendanceRecord>)
    requires KeysDistinct(att, DayKey) && att != []
    ensures KeysDistinct(att[..|att| - 1], DayKey)
  {
    var init := att[..|att| - 1];
    forall i, j | 0 <= i < j < |init| ensures DayKey(init[i]) != DayKey(init[j]) {
      assert init[i] == att[i] && init[j] == att[j];
    }
  }

  lemma DayIdsStep(att: seq<AttendanceRecord>, d: string)
    requires att != []
    ensures var last := att[|att| - 1];
      DayIds(att, d) == DayIds(att[..|att| - 1], d) + (if last.date == d then {last.employeeId} else {})
  {
    var init := att[..|att| - 1];
    assert forall i | 0 <= i < |init| :: init[i] == att[i];
  }

  lemma LastDayIsNew(att: seq<AttendanceRecord>, d: string)
    requires KeysDistinct(att, DayKey) && att != [] && att[|att| - 1].date == d
    ensures att[|att| - 1].employeeId !in DayIds(att[..|att| - 1], d)
  {
    var init := att[..|att| - 1];
    assert forall i | 0 <= i < |init| :: init[i] == att[i];
  }

  lemma {:induction false} EmployeeIdsBound(emps: seq<Employee>)
    ensures |EmployeeIds(emps)| <= |emps|
  {
    if emps != [] {
      var init := emps[..|emps| - 1];
      EmployeeIdsBound(init);
      assert EmployeeIds(emps) == EmployeeIds(init) + {emps[|emps| - 1].id} by {
        assert forall i | 0 <= i < |init| :: init[i] == emps[i];
      }
    }
  }

  lemma SubsetCard(a: set<string>, b: set<string>)
    requires a <= b
    ensures |a| <= |b|
  {
    assert b == a + (b - a);
  }

  /** In a consistent store, the present and absent counts of one day add
      up to at most one per employee. */
  lemma DashboardTodayBounded(emps: seq<Employee>, att: seq<AttendanceRecord>, today: string)
    requires Consistent(emps, att)
    ensures Dashboard(emps, att, today).presentToday + Dashboard(emps, att, today).absentToday <= |emps|
  {
    DayRowsPerEmployee(att, today);
    forall x | x in DayIds(att, today) ensures x in EmployeeIds(emps) {
      var i :| 0 <= i < |att| && att[i].date == today && att[i].employeeId == x;
      assert HasEmployee(emps, att[i].employeeId);
    }
    SubsetCard(DayIds(att, today), EmployeeIds(emps));
    EmployeeIdsBound(emps);
  }
}

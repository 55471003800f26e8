/** The request bodies of `POST /api/employees` and `POST /api/attendance`
    and the checks the Pydantic models `EmployeeCreate` and
    `AttendanceCreate` run on them before a handler is entered
    (backend/main.py:39-68). A rejected body never reaches the store; the
    framework answers it with status 422. */
module Requests {
  import opened Seqs
  import opened Tables
  import Text

  datatype Field = EmployeeIdField | FullNameField | EmailField | DepartmentField | DateField | StatusField

  datatype Problem =
    | TooShort     // `min_length=1` failed
    | TooLong      // `max_length` failed
    | Blank        // `not_empty` raised "Field cannot be empty"
    | NotAnEmail   // `EmailStr` refused the address
    | NotADate     // `validate_date` raised
    | NotAStatus   // not one of the `Literal["Present", "Absent"]` values

  datatype FieldError = FieldError(field: Field, problem: Problem)

  /** Pydantic reports every failing field of a body at once. */
  datatype Checked<T> = Accepted(value: T) | Rejected(errors: seq<FieldError>)

  datatype EmployeeCreate = EmployeeCreate(employeeId: string, fullName: string, email: string, department: string)

  datatype AttendanceCreate = AttendanceCreate(employeeId: string, date: string, status: Status)

  const EmployeeIdMaxLength: nat := 50
  const NameMaxLength: nat := 100

  /** What a handler may rely on about an accepted employee body. */
  predicate IsValidEmployee(req: EmployeeCreate) {
    IsFilled(req.employeeId) && IsFilled(req.fullName) && IsFilled(req.department)
  }

  /** The `not_empty` validator on `employee_id`, `full_name` and
      `department`: the value stripped of surrounding whitespace, or a
      rejection when nothing is left. */
  function NotEmpty(v: string): (r: Option<string>)
    ensures r.None? <==> Text.AllSpace(v)
    ensures r.Some? ==> IsFilled(r.value) && |r.value| <= |v|
    ensures r.Some? ==> exists i, j | 0 <= i <= j <= |v| :: r.value == v[i..j] && Text.AllSpace(v[..i]) && Text.AllSpace(v[j..])
  {
    var s := Text.Strip(v);
    if v == [] || s == [] then None else Some(s)
  }

  /** Running `not_empty` on its own output changes nothing. */
  lemma NotEmptyIdempotent(v: string)
    requires NotEmpty(v).Some?
    ensures NotEmpty(NotEmpty(v).value) == NotEmpty(v)
  {
    Text.StrippedIsFixed(NotEmpty(v).value);
  }

  /** `not_empty` keeps exactly the middle of any split of `v` into
      whitespace, a non-empty stripped middle and whitespace. */
  lemma NotEmptyKeepsMiddle(v: string, i: nat, j: nat)
    requires i < j <= |v| && Text.AllSpace(v[..i]) && Text.AllSpace(v[j..]) && Text.IsStripped(v[i..j])
    ensures NotEmpty(v) == Some(v[i..j])
  {
    Text.StripUnique(v, i, j);
  }

  datatype FieldCheck = Pass(value: string) | Fail(problem: Problem)

  /** One text field of `EmployeeCreate`: `Field(min_length=1,
      max_length=n)` on the raw value, then `not_empty`. */
  function CheckText(v: string, maxLength: nat): (r: FieldCheck)
    ensures r.Pass? <==> 1 <= |v| <= maxLength && !Text.AllSpace(v)
    ensures r.Pass? ==> IsFilled(r.value) && |r.value| <= maxLength
    ensures r.Fail? ==> (r.problem == TooShort <==> v == [])
    ensures r.Fail? ==> (r.problem == TooLong <==> 1 <= |v| && maxLength < |v|)
  {
    if |v| < 1 then Fail(TooShort)
    else if |v| > maxLength then Fail(TooLong)
    else match NotEmpty(v)
      case None => Fail(Blank)
      case Some(s) => Pass(s)
  }

  function ErrorsOf(field: Field, c: FieldCheck): seq<FieldError> {
    if c.Fail? then [FieldError(field, c.problem)] else []
  }

  predicate Reported(errors: seq<FieldError>, field: Field) {
    exists k | 0 <= k < |errors| :: errors[k].field == field
  }

  /** Validation of an `EmployeeCreate` body; `emailAccepted` is the verdict
      of the `EmailStr` type, whose rules belong to a library. */
  function ValidateEmployee(employeeId: string, fullName: string, email: string, department: string, emailAccepted: bool): (r: Checked<EmployeeCreate>)
    ensures r.Accepted? <==>
      && CheckText(employeeId, EmployeeIdMaxLength).Pass?
      && CheckText(fullName, NameMaxLength).Pass?
      && emailAccepted
      && CheckText(department, NameMaxLength).Pass?
    ensures r.Accepted? ==> IsValidEmployee(r.value) && r.value.email == email
    ensures r.Accepted? ==>
      r.value.employeeId == Text.Strip(employeeId) && r.value.fullName == Text.Strip(fullName) && r.value.department == Text.Strip(department)
    ensures r.Rejected? ==> r.errors != []
    ensures r.Rejected? ==>
      && (Reported(r.errors, EmployeeIdField) <==> CheckText(employeeId, EmployeeIdMaxLength).Fail?)
      && (Reported(r.errors, FullNameField) <==> CheckText(fullName, NameMaxLength).Fail?)
      && (Reported(r.errors, EmailField) <==> !emailAccepted)
      && (Reported(r.errors, DepartmentField) <==> CheckText(department, NameMaxLength).Fail?)
      && !Reported(r.errors, DateField) && !Reported(r.errors, StatusField)
  {
    var id := CheckText(employeeId, EmployeeIdMaxLength);
    var name := CheckText(fullName, NameMaxLength);
    var mail := if emailAccepted then Pass(email) else Fail(NotAnEmail);
    var dept := CheckText(department, NameMaxLength);
    if id.Pass? && name.Pass? && mail.Pass? && dept.Pass? then
      Accepted(EmployeeCreate(id.value, name.value, email, dept.value))
    else
      var errors := ErrorsOf(EmployeeIdField, id) + ErrorsOf(FullNameField, name) + ErrorsOf(EmailField, mail) + ErrorsOf(DepartmentField, dept);
      ReportedInErrors(id, name, mail, dept);
      Rejected(errors)
  }

  lemma ReportedInErrors(id: FieldCheck, name: FieldCheck, mail: FieldCheck, dept: FieldCheck)
    ensures var errors := ErrorsOf(EmployeeIdField, id) + ErrorsOf(FullNameField, name) + ErrorsOf(EmailField, mail) + ErrorsOf(DepartmentField, dept);
      && (Reported(errors, EmployeeIdField) <==> id.Fail?)
      && (Reported(errors, FullNameField) <==> name.Fail?)
      && (Reported(errors, EmailField) <==> mail.Fail?)
      && (Reported(errors, DepartmentField) <==> dept.Fail?)
      && !Reported(errors, DateField) && !Reported(errors, StatusField)
  {
    var a, b, c, d := ErrorsOf(EmployeeIdField, id), ErrorsOf(FullNameField, name), ErrorsOf(EmailField, mail), ErrorsOf(DepartmentField, dept);
    var errors := a + b + c + d;
    assert forall k | 0 <= k < |errors| ::
      errors[k] in a || errors[k] in b || errors[k] in c || errors[k] in d;
    if id.Fail? { assert errors[0] == a[0]; }
    if name.Fail? { assert errors[|a|] == b[0]; }
    if mail.Fail? { assert errors[|a| + |b|] == c[0]; }
    if dept.Fail? { assert errors[|a| + |b| + |c|] == d[0]; }
  }

  /** The `Literal["Present", "Absent"]` type of `status`. */
  function ParseStatus(s: string): (r: Option<Status>)
    ensures r == Some(Present) <==> s == "Present"
    ensures r == Some(Absent) <==> s == "Absent"
  {
    if s == "Present" then Some(Present) else if s == "Absent" then Some(Absent) else None
  }

  function StatusName(st: Status): string {
    match st
    case Present => "Present"
    case Absent => "Absent"
  }

  lemma StatusRoundTrip(s: string, st: Status)
    ensures ParseStatus(StatusName(st)) == Some(st)
    ensures ParseStatus(s) == Some(st) ==> s == StatusName(st)
  {
  }

  /** Validation of an `AttendanceCreate` body; `dateAccepted` is the verdict
      of `datetime.strptime(v, '%Y-%m-%d')`. `employee_id` has no
      constraint: an unknown or empty one reaches the handler. */
  function ValidateAttendance(employeeId: string, date: string, status: string, dateAccepted: bool): (r: Checked<AttendanceCreate>)
    ensures r.Accepted? <==> dateAccepted && ParseStatus(status).Some?
    ensures r.Accepted? ==> r.value.employeeId == employeeId && r.value.date == date && StatusName(r.value.status) == status
    ensures r.Rejected? ==> r.errors != []
    ensures r.Rejected? ==>
      && (Reported(r.errors, DateField) <==> !dateAccepted)
      && (Reported(r.errors, StatusField) <==> ParseStatus(status).None?)
      && !Reported(r.errors, EmployeeIdField)
  {
    var st := ParseStatus(status);
    if dateAccepted && st.Some? then
      Accepted(AttendanceCreate(employeeId, date, st.value))
    else
      var errors :=
        (if dateAccepted then [] else [FieldError(DateField, NotADate)]) +
        (if st.Some? then [] else [FieldError(StatusField, NotAStatus)]);
      assert !dateAccepted ==> errors[0].field == DateField;
      assert st.None? ==> errors[|errors| - 1].field == StatusField;
      Rejected(errors)
  }
}

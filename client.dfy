/** The single-page client: its component state and the event handlers that
    update it. Each network exchange is reduced to the request the handler
    issues and the outcome it is given back (passed in as parameters); the
    rendering, the timers and the browser dialogs are not modelled. */
module Client {
  import opened Text
  import opened FormValidation

  /** An employee as the listing endpoint returns it; the date of birth may
      be absent (null). */
  datatype Employee = Employee(
    id: int, name: string, dob: Option<string>, phone: string, email: string,
    departmentId: int, department: string)

  datatype Department = Department(id: int, name: string)

  datatype HttpMethod = Post | Put | Delete

  /** A request the client sends: verb, URL and the JSON body, if any. */
  datatype Request = Request(verb: HttpMethod, url: string, body: Option<Form>)

  /** What became of a request: fetch rejected, or a response whose `ok`
      flag is given. */
  datatype Outcome = Threw | Responded(ok: bool)

  const ApiUrl := "http://localhost:5000/api"
  const EmployeesUrl := ApiUrl + "/employees"

  /** `${API_URL}/employees/${id}`: the collection path, a slash, and a
      last segment that reads back as the id. */
  function EmployeeUrl(id: int): (u: string)
    ensures |u| > |EmployeesUrl| + 1
    ensures u[..|EmployeesUrl| + 1] == EmployeesUrl + "/"
    ensures ParseInt(u[|EmployeesUrl| + 1..]) == Some(id)
  {
    ParseIntOfIntToString(id);
    var u := EmployeesUrl + "/" + IntToString(id);
    assert u[|EmployeesUrl| + 1..] == IntToString(id);
    u
  }

  /** Distinct ids give distinct URLs. */
  lemma EmployeeUrlInjective(a: int, b: int)
    requires EmployeeUrl(a) == EmployeeUrl(b)
    ensures a == b
  {
    var n := |EmployeesUrl| + 1;
    assert EmployeeUrl(a)[n..] == EmployeeUrl(b)[n..];
  }

  /** The date input's value for a stored date: its first ten characters
      (the calendar date of an ISO timestamp), or "" when it is missing. */
  function DobField(dob: Option<string>): (r: string)
    ensures |r| <= 10
    ensures dob.Some? ==> r <= dob.value
    ensures dob.Some? ==> |r| == if |dob.value| < 10 then |dob.value| else 10
    ensures dob.None? ==> r == ""
  {
    if dob.Some? && dob.value != "" then
      dob.value[..if |dob.value| < 10 then |dob.value| else 10]
    else
      ""
  }

  lemma DobFieldOfTimestamp(date: string, rest: string)
    requires |date| == 10
    ensures DobField(Some(date + rest)) == date
  {
  }

  /** The form filled in from an employee, as Edit does: the department id
      becomes the string of its digits, which reads back as the id. */
  function FormOf(e: Employee): (f: Form)
    ensures f.name == e.name && f.phone == e.phone && f.email == e.email
    ensures f.dob == DobField(e.dob)
    ensures ParseInt(f.departmentId) == Some(e.departmentId)
  {
    ParseIntOfIntToString(e.departmentId);
    Form(e.name, DobField(e.dob), e.phone, e.email, IntToString(e.departmentId))
  }

  /** A form filled in by Edit always has a department, and has a date
      exactly when the employee's date is present and not empty. */
  lemma EditedFormChecks(e: Employee)
    ensures Accepted(FormOf(e), DepartmentId)
    ensures Accepted(FormOf(e), Dob) <==> e.dob.Some? && e.dob.value != ""
  {
  }

  /** The request a valid submission sends: PUT to the edited employee's
      URL when there is one, POST to the collection otherwise; the body is
      the form. */
  function SubmitRequest(editing: Option<Employee>, form: Form): (r: Request)
    ensures r.body == Some(form)
    ensures editing.Some? <==> r.verb == Put
    ensures editing.Some? ==> r.url == EmployeeUrl(editing.value.id)
    ensures editing.None? ==> r.verb == Post && r.url == EmployeesUrl
  {
    if editing.Some? then Request(Put, EmployeeUrl(editing.value.id), Some(form))
    else Request(Post, EmployeesUrl, Some(form))
  }

  /** The banner text after a submission that got a response. */
  function SubmitMessage(updating: bool, ok: bool): string {
    if updating then
      (if ok then "Employee updated successfully" else "Failed to update employee")
    else
      (if ok then "Employee added successfully" else "Failed to add employee")
  }

  /** The banner text after a confirmed delete. */
  function DeleteMessage(outcome: Outcome): string {
    match outcome
    case Threw => ErrorOccurred
    case Responded(ok) => if ok then "Employee deleted successfully" else "Failed to delete employee"
  }

  const ErrorOccurred := "An error occurred"

  /** A list refresh: the fetched list when the fetch succeeded, else the
      old one (a failed fetch is only logged). */
  function Refreshed<T>(old_: seq<T>, fetched: Option<seq<T>>): seq<T> {
    if fetched.Some? then fetched.value else old_
  }

  class App {
    var employees: seq<Employee>
    var departments: seq<Department>
    var message: string
    var editEmployee: Option<Employee>
    var form: Form
    var errors: map<Field, string>

    /** Every recorded error carries the message of its own field. */
    ghost predicate Valid()
      reads this
    {
      forall f :: f in errors ==> errors[f] == ErrorMessage(f)
    }

    /** Idle: no edit target. Editing: an employee is being edited. */
    predicate Editing()
      reads this
    {
      editEmployee.Some?
    }

    constructor ()
      ensures Valid() && !Editing()
      ensures employees == [] && departments == [] && message == ""
      ensures form == EmptyForm && errors == map[]
    {
      employees := [];
      departments := [];
      message := "";
      editEmployee := None;
      form := EmptyForm;
      errors := map[];
    }

    /** fetchEmployees: replaces the list when the GET succeeds. */
    method FetchEmployees(fetched: Option<seq<Employee>>)
      requires Valid()
      modifies this`employees
      ensures Valid()
      ensures employees == Refreshed(old(employees), fetched)
    {
      if fetched.Some? {
        employees := fetched.value;
      }
    }

    /** fetchDepartments: replaces the list when the GET succeeds. */
    method FetchDepartments(fetched: Option<seq<Department>>)
      requires Valid()
      modifies this`departments
      ensures Valid()
      ensures departments == Refreshed(old(departments), fetched)
    {
      if fetched.Some? {
        departments := fetched.value;
      }
    }

    /** validate: records the failing fields and reports whether none failed. */
    method Validate() returns (ok: bool)
      requires Valid()
      modifies this`errors
      ensures Valid()
      ensures errors == ValidationErrors(form)
      ensures ok <==> FormAccepted(form)
    {
      errors := ValidationErrors(form);
      NoErrorsIffAccepted(form);
      ok := |errors| == 0;
    }

    /** handleChange: the named field takes the input's value; nothing else
        in the form changes. */
    method HandleChange(field: Field, value: string)
      requires Valid()
      modifies this`form
      ensures Valid()
      ensures form.Get(field) == value
      ensures forall g :: g != field ==> form.Get(g) == old(form).Get(g)
    {
      form := form.With(field, value);
    }

    /** handleEdit: enter Editing with the employee, copying its fields into
        the form. Recorded errors and the banner are left as they were. */
    method HandleEdit(employee: Employee)
      requires Valid()
      modifies this`editEmployee, this`form
      ensures Valid()
      ensures Editing() && editEmployee == Some(employee)
      ensures form == FormOf(employee)
    {
      editEmployee := Some(employee);
      form := FormOf(employee);
    }

    /** handleCancelEdit: back to Idle with a blank form and no errors. */
    method HandleCancelEdit()
      requires Valid()
      modifies this`editEmployee, this`form, this`errors
      ensures Valid() && !Editing()
      ensures form == EmptyForm && errors == map[]
    {
      editEmployee := None;
      form := EmptyForm;
      errors := map[];
    }

    /** handleSubmit. An invalid form stops before any request, with the
        errors recorded. Otherwise the request goes out; if fetch rejects,
        only the banner changes. If a response arrives, whatever its status,
        the list is refreshed, the form is blanked and the errors cleared;
        the edit target is dropped only when an update succeeded. */
    method HandleSubmit(outcome: Outcome, fetched: Option<seq<Employee>>) returns (request: Option<Request>)
      requires Valid()
      modifies this`form, this`errors, this`message, this`editEmployee, this`employees
      ensures Valid()
      ensures !FormAccepted(old(form)) ==>
        && request == None
        && errors == ValidationErrors(old(form))
        && form == old(form) && editEmployee == old(editEmployee)
        && message == old(message) && employees == old(employees)
      ensures FormAccepted(old(form)) ==>
        && request == Some(SubmitRequest(old(editEmployee), old(form)))
        && errors == map[]
      ensures FormAccepted(old(form)) && outcome.Threw? ==>
        && form == old(form) && editEmployee == old(editEmployee)
        && message == ErrorOccurred && employees == old(employees)
      ensures FormAccepted(old(form)) && outcome.Responded? ==>
        && form == EmptyForm
        && employees == Refreshed(old(employees), fetched)
        && message == SubmitMessage(old(editEmployee).Some?, outcome.ok)
        && editEmployee == (if outcome.ok then None else old(editEmployee))
    {
      var ok := Validate();
      if !ok {
        return None;
      }
      NoErrorsIffAccepted(form);
      request := Some(SubmitRequest(editEmployee, form));
      match outcome
      case Threw =>
        message := ErrorOccurred;
      case Responded(resOk) =>
        if editEmployee.Some? {
          if resOk {
            message := "Employee updated successfully";
            editEmployee := None;
          } else {
            message := "Failed to update employee";
          }
        } else {
          if resOk {
            message := "Employee added successfully";
          } else {
            message := "Failed to add employee";
          }
        }
        FetchEmployees(fetched);
        form := EmptyForm;
        errors := map[];
    }

    /** handleDelete. Without confirmation nothing happens; otherwise the
        DELETE goes out and the banner reports the outcome, and the list is
        refreshed only after a successful response. The form, the edit
        target and the errors are untouched, even when the deleted employee
        is the one being edited. */
    method HandleDelete(id: int, confirmed: bool, outcome: Outcome, fetched: Option<seq<Employee>>)
      returns (request: Option<Request>)
      requires Valid()
      modifies this`message, this`employees
      ensures Valid()
      ensures !confirmed ==> request == None && message == old(message) && employees == old(employees)
      ensures confirmed ==> request == Some(Request(Delete, EmployeeUrl(id), None))
      ensures confirmed ==> message == DeleteMessage(outcome)
      ensures employees == if confirmed && outcome == Responded(true)
                           then Refreshed(old(employees), fetched) else old(employees)
    {
      if !confirmed {
        return None;
      }
      request := Some(Request(Delete, EmployeeUrl(id), None));
      match outcome
      case Threw =>
        message := ErrorOccurred;
      case Responded(ok) =>
        if ok {
          message := "Employee deleted successfully";
          FetchEmployees(fetched);
        } else {
          message := "Failed to delete employee";
        }
    }
  }

  /** Idle -> Editing -> Idle: editing an employee and saving the form
      unchanged sends a PUT of exactly the employee's fields to its URL
      whenever those fields pass validation, and a successful response
      returns the client to Idle with a blank form. */
  method EditThenSave(e: Employee) returns (request: Option<Request>, idleAfter: bool, blankAfter: bool)
    ensures FormAccepted(FormOf(e)) ==> request == Some(Request(Put, EmployeeUrl(e.id), Some(FormOf(e))))
    ensures FormAccepted(FormOf(e)) ==> idleAfter && blankAfter
    ensures !FormAccepted(FormOf(e)) ==> request == None && !idleAfter && !blankAfter
  {
    var app := new App();
    app.HandleEdit(e);
    request := app.HandleSubmit(Responded(true), None);
    idleAfter := !app.Editing();
    blankAfter := app.form == EmptyForm;
    if !FormAccepted(FormOf(e)) {
      EditedFormChecks(e);
    }
  }
}

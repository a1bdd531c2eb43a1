/** How the client's requests meet the service: the form travels as a JSON
    object of five strings, and the id travels as the last segment of the
    URL. */
module Interop {
  import opened Text
  import opened FormValidation
  import Client
  import opened Server

  /** The body the service reads from `JSON.stringify(form)`. */
  function JsonBody(form: Form): Fields {
    Fields(Str(form.name), Str(form.dob), Str(form.phone), Str(form.email), Str(form.departmentId))
  }

  /** The `:id` route parameter of a URL under the collection path. */
  function PathParam(url: string): string
    requires |url| > |Client.EmployeesUrl| + 1
  {
    url[|Client.EmployeesUrl| + 1..]
  }

  /** A form the client lets through always passes the service's guard. */
  lemma AcceptedFormPassesGuard(form: Form)
    requires FormAccepted(form)
    ensures !MissingField(JsonBody(form))
  {
    assert Accepted(form, Name) && Accepted(form, Phone) && Accepted(form, Email);
    TrimEmptyIffAllWhitespace(form.name);
    PhoneValidIffRegex(form.phone);
    EmailValidIffRegex(form.email);
    assert form.name != "";
    assert |form.phone| >= 10;
    assert form.email != "";
    assert Accepted(form, Dob) && Accepted(form, DepartmentId);
  }

  /** The converse fails: the guard only asks for non-empty values, so a
      caller that skips the client can store a malformed phone and email. */
  lemma GuardWeakerThanValidation()
    ensures !MissingField(JsonBody(Form("x", "x", "x", "x", "x")))
    ensures !FormAccepted(Form("x", "x", "x", "x", "x"))
  {
    assert !Accepted(Form("x", "x", "x", "x", "x"), Phone) by {
      PhoneValidIffRegex("x");
    }
  }

  /** A PUT sent for the employee being edited updates that employee's row
      and no other. */
  lemma UpdateTargetsEditedRow(e: Client.Employee, form: Form, employees: map<int, Fields>)
    ensures |Client.EmployeeUrl(e.id)| > |Client.EmployeesUrl| + 1
    ensures UpdateRow(employees, ParseInt(PathParam(Client.EmployeeUrl(e.id))), JsonBody(form))
            == if e.id in employees then employees[e.id := JsonBody(form)] else employees
  {
  }

  /** A DELETE sent for an employee removes that employee's row and no
      other. */
  lemma DeleteTargetsRow(id: int, employees: map<int, Fields>)
    ensures |Client.EmployeeUrl(id)| > |Client.EmployeesUrl| + 1
    ensures RemoveRow(employees, ParseInt(PathParam(Client.EmployeeUrl(id)))) == employees - {id}
  {
  }

  /** Creating an employee from a form whose department was picked from the
      loaded departments makes it appear in the listing under that
      department's name. */
  lemma CreatedEmployeeListed(employees: map<int, Fields>, departments: map<int, string>,
                              id: int, form: Form, department: int)
    requires id !in employees
    requires department in departments
    requires form.departmentId == IntToString(department)
    ensures id in ListEmployees(employees[id := JsonBody(form)], departments)
    ensures ListEmployees(employees[id := JsonBody(form)], departments)[id]
            == Listed(JsonBody(form), departments[department])
  {
    KeyOfRendered(department);
    ListAfterInsert(employees, departments, id, JsonBody(form));
  }
}

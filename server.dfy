/** The REST service: five route handlers over an employee table and a
    department table. Each handler runs one SQL statement; here the tables
    are maps (employee id to the row's five values, department id to name)
    and the statement's effect is written out on them. A failing statement
    is an input to the handler (`fault`): it changes nothing and is echoed
    back with status 500. */
module Server {
  import opened Text

  /** The JSON values a body field can hold. Objects and arrays are one case
      (both are truthy); JSON has no NaN. */
  datatype JsValue = Undefined | Null | Bool(b: bool) | Num(x: real) | Str(s: string) | Compound

  /** JavaScript truthiness, as `!value` negates it. */
  predicate Truthy(v: JsValue) {
    match v
    case Undefined => false
    case Null => false
    case Bool(b) => b
    case Num(x) => x != 0.0
    case Str(s) => s != ""
    case Compound => true
  }

  /** The falsy values are exactly undefined, null, false, 0 and "". */
  lemma FalsyValues(v: JsValue)
    ensures !Truthy(v) <==> v in {Undefined, Null, Bool(false), Num(0.0), Str("")}
  {
  }

  /** The five values taken from a request body (a missing key reads as
      undefined); an employee row holds the same five values. */
  datatype Fields = Fields(name: JsValue, dob: JsValue, phone: JsValue, email: JsValue, departmentId: JsValue)

  /** The guard shared by POST and PUT: some field is falsy. */
  predicate MissingField(b: Fields) {
    !Truthy(b.name) || !Truthy(b.dob) || !Truthy(b.phone) || !Truthy(b.email) || !Truthy(b.departmentId)
  }

  const FieldsRequired := "All fields are required"

  /** An error object reported by the store; its contents are opaque. */
  datatype StoreError = StoreError(detail: string)

  /** An employee row of the listing: its own values plus the name of its
      department. */
  datatype Listed = Listed(fields: Fields, department: string)

  datatype Body =
    | MessageBody(message: string)
    | ErrorBody(error: string)
    | StoreErrorBody(storeError: StoreError)
    | EmployeeRows(employees: map<int, Listed>)
    | DepartmentRows(departments: map<int, string>)

  datatype Response = Response(status: nat, body: Body)

  function Failed(e: StoreError): Response {
    Response(500, StoreErrorBody(e))
  }

  function Ok(message: string): Response {
    Response(200, MessageBody(message))
  }

  // ---------------------------------------------------------------------
  // Matching keys
  // ---------------------------------------------------------------------

  /** The integer key a bound value compares equal to: an integral number,
      or a string that is a decimal numeral. Anything else matches no key. */
  function KeyOf(v: JsValue): (k: Option<int>)
    ensures v.Num? && k.Some? ==> v.x == k.value as real
  {
    match v
    case Num(x) => if x == x.Floor as real then Some(x.Floor) else None
    case Str(s) => ParseInt(s)
    case _ => None
  }

  /** A department id sent as a number or as the string of its digits
      resolves to that id. */
  lemma KeyOfRendered(d: int)
    ensures KeyOf(Num(d as real)) == Some(d)
    ensures KeyOf(Str(IntToString(d))) == Some(d)
  {
    ParseIntOfIntToString(d);
  }

  /** The department a row's department_id joins with, if any. */
  predicate Joins(row: Fields, departments: map<int, string>) {
    KeyOf(row.departmentId).Some? && KeyOf(row.departmentId).value in departments
  }

  function DepartmentOf(row: Fields, departments: map<int, string>): (name: string)
    requires Joins(row, departments)
    ensures name in departments.Values
  {
    departments[KeyOf(row.departmentId).value]
  }

  // ---------------------------------------------------------------------
  // The statements' effects on the employee table
  // ---------------------------------------------------------------------

  /** SELECT employee.*, departments.name ... INNER JOIN: every employee
      whose department_id matches a department, with that department's
      name; employees with a dangling department_id are left out. */
  function ListEmployees(employees: map<int, Fields>, departments: map<int, string>): (r: map<int, Listed>)
    ensures forall id :: id in r <==> id in employees && Joins(employees[id], departments)
    ensures forall id :: id in r ==> id in employees && Joins(employees[id], departments)
                                     && r[id].fields == employees[id]
                                     && r[id].department == departments[KeyOf(employees[id].departmentId).value]
    ensures forall id :: id in r ==> r[id].department in departments.Values
  {
    map id | id in employees && Joins(employees[id], departments) ::
      Listed(employees[id], DepartmentOf(employees[id], departments))
  }

  /** UPDATE ... WHERE id = key: the matching row, if any, takes the new
      values; no row is added or removed and no other row changes. */
  function UpdateRow(employees: map<int, Fields>, key: Option<int>, row: Fields): (r: map<int, Fields>)
    ensures r.Keys == employees.Keys
    ensures forall id :: id in r ==> r[id] == if key == Some(id) then row else employees[id]
  {
    if key.Some? && key.value in employees then employees[key.value := row] else employees
  }

  /** DELETE ... WHERE id = key: only the matching row, if any, goes. */
  function RemoveRow(employees: map<int, Fields>, key: Option<int>): (r: map<int, Fields>)
    ensures r.Keys == if key.Some? then employees.Keys - {key.value} else employees.Keys
    ensures forall id :: id in r ==> r[id] == employees[id]
  {
    if key.Some? then employees - {key.value} else employees
  }

  /** An insert changes the listing by the new row alone, and only when
      its department exists. */
  lemma ListAfterInsert(employees: map<int, Fields>, departments: map<int, string>, id: int, row: Fields)
    requires id !in employees
    ensures ListEmployees(employees[id := row], departments) ==
      if Joins(row, departments)
      then ListEmployees(employees, departments)[id := Listed(row, DepartmentOf(row, departments))]
      else ListEmployees(employees, departments)
  {
  }

  /** An update changes the listing at the updated id alone. */
  lemma ListAfterUpdate(employees: map<int, Fields>, departments: map<int, string>, id: int, row: Fields)
    requires id in employees
    ensures ListEmployees(UpdateRow(employees, Some(id), row), departments) ==
      if Joins(row, departments)
      then ListEmployees(employees, departments)[id := Listed(row, DepartmentOf(row, departments))]
      else ListEmployees(employees, departments) - {id}
  {
  }

  /** A delete removes the deleted id from the listing and nothing else. */
  lemma ListAfterRemove(employees: map<int, Fields>, departments: map<int, string>, id: int)
    ensures ListEmployees(RemoveRow(employees, Some(id)), departments) ==
      ListEmployees(employees, departments) - {id}
  {
  }

  // ---------------------------------------------------------------------
  // The route handlers
  // ---------------------------------------------------------------------

  class Database {
    var employees: map<int, Fields>
    var departments: map<int, string>
    /** The store's auto-increment counter. */
    var nextId: int

    /** The counter is above every id in use, so the id it hands out is
        fresh. */
    ghost predicate Valid()
      reads this
    {
      forall id :: id in employees ==> id < nextId
    }

    constructor (employees0: map<int, Fields>, departments0: map<int, string>, nextId0: int)
      requires forall id :: id in employees0 ==> id < nextId0
      ensures Valid()
      ensures employees == employees0 && departments == departments0
    {
      employees := employees0;
      departments := departments0;
      nextId := nextId0;
    }

    /** GET /api/employees */
    method GetEmployees(fault: Option<StoreError>) returns (res: Response)
      ensures fault.Some? ==> res == Failed(fault.value)
      ensures fault.None? ==> res.status == 200 && res.body.EmployeeRows?
      ensures fault.None? ==> res.body.employees == ListEmployees(employees, departments)
    {
      if fault.Some? {
        return Failed(fault.value);
      }
      res := Response(200, EmployeeRows(ListEmployees(employees, departments)));
    }

    /** POST /api/employees: the guard, then INSERT of the five values under
        an id the store picks. */
    method PostEmployee(body: Fields, fault: Option<StoreError>) returns (res: Response, ghost id: int)
      requires Valid()
      modifies this`employees, this`nextId
      ensures Valid()
      ensures MissingField(body) ==> res == Response(400, ErrorBody(FieldsRequired))
      ensures !MissingField(body) && fault.Some? ==> res == Failed(fault.value)
      ensures MissingField(body) || fault.Some? ==> employees == old(employees)
      ensures !MissingField(body) && fault.None? ==>
        && res == Ok("Employee added successfully")
        && id !in old(employees)
        && employees == old(employees)[id := body]
    {
      id := nextId;
      if MissingField(body) {
        return Response(400, ErrorBody(FieldsRequired)), id;
      }
      if fault.Some? {
        return Failed(fault.value), id;
      }
      employees := employees[nextId := body];
      nextId := nextId + 1;
      res := Ok("Employee added successfully");
    }

    /** PUT /api/employees/:id: the guard, then UPDATE of the row whose id
        the path names; an unknown id changes nothing and still succeeds. */
    method PutEmployee(pathId: string, body: Fields, fault: Option<StoreError>) returns (res: Response)
      requires Valid()
      modifies this`employees
      ensures Valid()
      ensures MissingField(body) ==> res == Response(400, ErrorBody(FieldsRequired))
      ensures !MissingField(body) && fault.Some? ==> res == Failed(fault.value)
      ensures MissingField(body) || fault.Some? ==> employees == old(employees)
      ensures !MissingField(body) && fault.None? ==>
        && res == Ok("Employee updated successfully")
        && employees == UpdateRow(old(employees), ParseInt(pathId), body)
    {
      if MissingField(body) {
        return Response(400, ErrorBody(FieldsRequired));
      }
      if fault.Some? {
        return Failed(fault.value);
      }
      employees := UpdateRow(employees, ParseInt(pathId), body);
      res := Ok("Employee updated successfully");
    }

    /** DELETE /api/employees/:id: no guard; removes the named row if there
        is one and succeeds either way. */
    method DeleteEmployee(pathId: string, fault: Option<StoreError>) returns (res: Response)
      requires Valid()
      modifies this`employees
      ensures Valid()
      ensures fault.Some? ==> res == Failed(fault.value) && employees == old(employees)
      ensures fault.None? ==>
        && res == Ok("Employee deleted")
        && employees == RemoveRow(old(employees), ParseInt(pathId))
    {
      if fault.Some? {
        return Failed(fault.value);
      }
      employees := RemoveRow(employees, ParseInt(pathId));
      res := Ok("Employee deleted");
    }

    /** GET /api/departments: the table as it is. */
    method GetDepartments(fault: Option<StoreError>) returns (res: Response)
      ensures fault.Some? ==> res == Failed(fault.value)
      ensures fault.None? ==> res == Response(200, DepartmentRows(departments))
    {
      if fault.Some? {
        return Failed(fault.value);
      }
      res := Response(200, DepartmentRows(departments));
    }
  }
}

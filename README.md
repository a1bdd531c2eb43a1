# Employee records: a Dafny model of the form client and the REST service

The application keeps employees (name, date of birth, phone, email,
department) and departments. A single-page client holds a form, an edit
target, a map of validation errors and a banner message. A small service
exposes five routes, each backed by one SQL statement over an `employee`
table and a `departments` table.

This project models both halves:

- `text.dfy` (module `Text`): the whitespace class that JavaScript's
  `trim()` and the regular-expression class `\S` share, `trim()` itself,
  and the decimal rendering of integers (`department_id + ""`,
  `${editEmployee.id}`) together with its inverse.
- `form_validation.dfy` (module `FormValidation`): the form, the phone
  pattern `^\d{10,15}$` and the email pattern `^\S+@\S+\.\S+$` as
  character-level predicates, and `validate`. Each pattern has two
  definitions, and a lemma proves them equivalent. One follows the
  pattern's structure: a bounded repetition, or a split `a@b.c`. The other
  is read off position by position.
- `client.dfy` (module `Client`): the component state as class `App`, with
  one method per handler. The network is reduced to the request a handler
  issues and the outcome it is handed back: fetch rejected, or a response
  with its `ok` flag. It also takes the list a refresh fetched, if any, and
  for delete the answer of the confirmation dialog.
- `server.dfy` (module `Server`): JavaScript truthiness, the
  required-fields guard, and class `Database`. That class keeps the two
  tables as maps and has one method per route. A store failure is an input
  to each handler. It changes nothing, and the handler answers 500 with the
  error.
- `interop.dfy` (module `Interop`): the two halves together. A form the
  client accepts passes the service's guard, but not the other way round.
  The URL the client builds for an employee makes PUT and DELETE touch
  exactly that row. A created employee shows up in the listing under the
  name of the department picked in the form.

Three behaviours of the code are easy to misread; the model follows the
code:

- After a submission gets any response, the form is reset and the errors
  are cleared, even when `res.ok` is false (`p2/frontend/src/App.js:102-104`).
  So a failed create also clears the form.
- The edit target is cleared only when an update succeeds
  (`p2/frontend/src/App.js:82-87`). A failed update or a rejected fetch
  keeps it.
- The client sends every field, the department included, as a string
  (`JSON.stringify(form)`). So the service receives `department_id` as a
  string of digits, not as a number.

## Model

| member | source | states |
|---|---|---|
| `Text.Trim` | p2/frontend/src/App.js:54 | `trim()` yields the piece of the input left after removing only whitespace before and after it, and that piece neither starts nor ends with whitespace |
| `Text.TrimEmptyIffAllWhitespace` | p2/frontend/src/App.js:54 | `trim()` yields "" (falsy) exactly when every character is whitespace, so the name is rejected iff it is empty or all whitespace |
| `Text.IntToString` | p2/frontend/src/App.js:121 | a number turned into a string is non-empty and starts with '-' exactly when it is negative |
| `Text.ParseIntOfIntToString` | p2/frontend/src/App.js:121 | the string the client makes of an id reads back as that id |
| `Text.IntToStringInjective` | p2/frontend/src/App.js:77 | distinct ids give distinct strings |
| `FormValidation.Form.With` | p2/frontend/src/App.js:65 | replacing one form field sets that field and leaves the other four as they were |
| `FormValidation.DigitRunIff` | p2/frontend/src/App.js:56 | the bounded repetition `\d{lo,hi}` matches a whole string iff its length is between lo and hi and every character is an ASCII digit |
| `FormValidation.PhoneValidIffRegex` | p2/frontend/src/App.js:56 | the phone passes `^\d{10,15}$` iff it has 10 to 15 characters, all of them '0'-'9' |
| `FormValidation.EmailValidIffRegex` | p2/frontend/src/App.js:57 | the email passes `^\S+@\S+\.\S+$` iff it has no whitespace and has an '@' at i >= 1 and a '.' at j with i+2 <= j <= length-2 |
| `FormValidation.PhoneExamples` | p2/frontend/src/App.js:56 | "12345" fails the phone pattern and "1234567890" passes |
| `FormValidation.EmailExamples` | p2/frontend/src/App.js:57 | "a@b" fails the email pattern and "a@b.com" passes |
| `FormValidation.FieldPassesIffAccepted` | p2/frontend/src/App.js:54-58 | each of the five checks as performed agrees with what the field must satisfy: name non-blank after trim, dob and department not "", phone and email matching their patterns |
| `FormValidation.ValidationErrors` | p2/frontend/src/App.js:52-58 | all five checks run; the error map's keys are exactly the failing fields, each holding its field's message |
| `FormValidation.NoErrorsIffAccepted` | p2/frontend/src/App.js:59-60 | `validate` returns true (the error map has no key) exactly when every field is accepted |
| `FormValidation.EmptyFormFailsEveryField` | p2/frontend/src/App.js:52-58 | the blank form fails all five checks |
| `FormValidation.SampleFormAccepted` | p2/frontend/src/App.js:52-58 | a complete sample form passes, with department "1" and also with "0", since only "" is rejected |
| `Client.EmployeeUrl` | p2/frontend/src/App.js:77 | the URL for an employee is the collection path, a slash, then a segment that reads back as the id |
| `Client.EmployeeUrlInjective` | p2/frontend/src/App.js:137 | distinct employee ids give distinct request URLs |
| `Client.DobField` | p2/frontend/src/App.js:118 | the date put in the form is the prefix of the stored date of length min(10, its length), and "" when the date is absent |
| `Client.DobFieldOfTimestamp` | p2/frontend/src/App.js:118 | a stored timestamp such as "1990-05-01T..." fills the date input with "1990-05-01" |
| `Client.FormOf` | p2/frontend/src/App.js:116-122 | the form filled in for an edit copies name, phone and email, truncates the date, and holds a department string that reads back as the employee's department id |
| `Client.EditedFormChecks` | p2/frontend/src/App.js:116-122 | a form filled in by Edit always passes the department check, and passes the date check exactly when the employee's date is present and not empty |
| `Client.SubmitMessage` | p2/frontend/src/App.js:82-99 | the banner after a submission that got a response: updated/added on success, failed to update/add otherwise |
| `Client.DeleteMessage` | p2/frontend/src/App.js:138-148 | the banner after a confirmed delete: deleted on an ok response, failed on another response, an error occurred when fetch rejects |
| `Client.SubmitRequest` | p2/frontend/src/App.js:75-94 | a valid submission sends PUT to the edited employee's URL when there is an edit target and POST to the collection otherwise, with the form as body |
| `Client.App.constructor` | p2/frontend/src/App.js:8-19 | the client starts Idle with a blank form, no errors, no message and empty lists |
| `Client.App.FetchEmployees` | p2/frontend/src/App.js:40-49 | the list is replaced by the fetched one, or kept when the fetch fails |
| `Client.App.FetchDepartments` | p2/frontend/src/App.js:28-37 | the department list is replaced by the fetched one, or kept when the fetch fails |
| `Client.App.Validate` | p2/frontend/src/App.js:52-61 | the errors become the error map of the current form, and the result is true exactly when every field is accepted |
| `Client.App.HandleChange` | p2/frontend/src/App.js:64-66 | only the named field of the form changes; the edit target, errors, message and lists are untouched |
| `Client.App.HandleEdit` | p2/frontend/src/App.js:114-124 | the client enters Editing with the employee as target and the form filled in from it; errors and message are kept |
| `Client.App.HandleCancelEdit` | p2/frontend/src/App.js:127-131 | the client returns to Idle with a blank form and no errors; the message and lists are kept |
| `Client.App.HandleSubmit` | p2/frontend/src/App.js:69-111 | an invalid form sends nothing and only the errors change. A valid one sends SubmitRequest and clears the errors. If fetch rejects, only the message changes. After any response the list is refreshed and the form blanked, and the edit target is dropped only on success |
| `Client.App.HandleDelete` | p2/frontend/src/App.js:134-151 | without confirmation nothing is sent or changed. Otherwise DELETE goes to the employee's URL and the message reports the outcome. The list is refreshed only after an ok response, and form, edit target and errors are never touched |
| `Client.EditThenSave` | p2/frontend/src/App.js:69-124 | editing an employee and saving at once sends a PUT of exactly its fields when they pass validation, and on success the client is back to Idle with a blank form; otherwise nothing is sent |
| `Server.Truthy` | p2/backend/server.js:28 | JavaScript truthiness of a JSON value, as `!value` negates it |
| `Server.MissingField` | p2/backend/server.js:28 | the guard of POST and PUT: some one of the five fields is falsy |
| `Server.FalsyValues` | p2/backend/server.js:28 | a JSON value is falsy exactly when it is undefined, null, false, 0 or "" |
| `Server.KeyOf` | p2/backend/server.js:17-19 | a bound number matches an id only when it is integral and equal to it |
| `Server.KeyOfRendered` | p2/backend/server.js:17-19 | a department id sent as a number, or as the string of its digits, matches that department |
| `Server.ListEmployees` | p2/backend/server.js:16-23 | the listing holds exactly the employees whose department_id matches an existing department, each with its own values and the name of the department whose id its department_id matches; dangling ones are omitted |
| `Server.UpdateRow` | p2/backend/server.js:46-49 | UPDATE by id keeps the set of ids, gives the matching row the new values and leaves every other row unchanged |
| `Server.RemoveRow` | p2/backend/server.js:56-57 | DELETE by id removes only the matching id and leaves every other row unchanged |
| `Server.ListAfterInsert` | p2/backend/server.js:31-33 | an insert changes the listing only by the new row, which appears with its department's name when that department exists |
| `Server.ListAfterUpdate` | p2/backend/server.js:46-49 | an update changes the listing only at the updated id |
| `Server.ListAfterRemove` | p2/backend/server.js:56-57 | a delete removes exactly the deleted id from the listing |
| `Server.Database.constructor` | p2/backend/server.js:9-14 | the store starts with the given tables and an id counter above every id in use |
| `Server.Database.GetEmployees` | p2/backend/server.js:16-24 | 500 with the store error, or 200 with the inner-join listing |
| `Server.Database.PostEmployee` | p2/backend/server.js:26-37 | a falsy field gives 400 "All fields are required" and no change. A store error gives 500 and no change. Otherwise exactly one row with the five values is added under a fresh id, every other row is kept, and the reply is "Employee added successfully" |
| `Server.Database.PutEmployee` | p2/backend/server.js:40-53 | the same guard and errors as POST. Otherwise only the row whose id the path names is overwritten, and the reply is "Employee updated successfully" even when no row matches |
| `Server.Database.DeleteEmployee` | p2/backend/server.js:55-61 | no guard. A store error gives 500 and no change. Otherwise only the named row, if present, is removed, and the reply is "Employee deleted" either way |
| `Server.Database.GetDepartments` | p2/backend/server.js:64-69 | 500 with the store error, or 200 with the departments table as it is; no handler writes that table |
| `Interop.JsonBody` | p2/frontend/src/App.js:80 | the body the service destructures from the client's `JSON.stringify(form)`: the five form fields, each as a string |
| `Interop.AcceptedFormPassesGuard` | p2/backend/server.js:27-30 | a form the client accepts, sent as JSON, passes the service's required-fields guard |
| `Interop.GuardWeakerThanValidation` | p2/backend/server.js:43 | the service accepts a body whose phone and email the client would reject |
| `Interop.UpdateTargetsEditedRow` | p2/backend/server.js:46-49 | a PUT to the URL the client builds for an employee updates that employee's row and no other |
| `Interop.DeleteTargetsRow` | p2/backend/server.js:55-57 | a DELETE to the URL the client builds for an id removes that row and no other |
| `Interop.CreatedEmployeeListed` | p2/backend/server.js:16-35 | an employee created from a form whose department was picked from the table then appears in the listing with its values and that department's name |

## Left out

- HTTP transport is not modelled: fetch, JSON encoding, Express routing, cors, the MySQL connection and `app.listen` (`p2/backend/server.js:1-14`, `71-74`). Requests are values, and the store is two maps.
- The JSX rendering and its styling are not modelled (`p2/frontend/src/App.js:153-286`).
- Clearing the message after 3 seconds is not modelled, because it is a timer. The message is only set.
- `window.confirm` is not modelled as a dialog. It becomes the `confirmed` parameter of `HandleDelete`.
- `window.scrollTo` and `console.error` are not modelled; they have no effect on the state.
- The two fetches on mount and overlapping in-flight requests are not modelled (`p2/frontend/src/App.js:22-25`). Handlers run one at a time.
- Client.App.HandleDelete: the refresh it starts without awaiting is applied at once. A later interleaving with other handlers is not modelled.
- Client.App.HandleChange: takes one of the five field names. An input `name` outside them would add a new key to the form object, but the form has only these five inputs.
- Text.IsWhitespace: fixed to the ECMAScript whitespace and line-terminator set, shared by trim and `\S`. JavaScript works on UTF-16 code units, the model on Unicode scalar values. The two agree for these checks because no whitespace character lies outside the Basic Multilingual Plane.
- Text.IntToString: renders integers only. JavaScript's exponent form for magnitudes of 10^21 and above is not modelled; department and employee ids are integers far below that.
- Server.KeyOf: a department_id or path id matches a key only as an integral number or a decimal numeral. MySQL's other coercions are not modelled: rounding a fractional number, `true` as 1, a string with a numeric prefix or with spaces. Such values match no row in the model.
- Server.Database.PostEmployee: the id comes from a counter above every id in use. The contract promises only that the id is fresh, because the store's auto-increment mechanics are not visible in the code.
- The contents of store error objects are not modelled. `StoreError` is opaque and is echoed back unchanged.
- Server.ListEmployees: rows hold the values as they were sent and bound, not the store's converted column values. The real SELECT returns the columns' own types: a DATE comes back as a timestamp and department_id as a number, so the listing would show `department_id` as `1`, not `"1"`. The client's truncation of the date and its number-to-string of the department id handle exactly that difference (`p2/frontend/src/App.js:118`, `121`). Column conversion is a store internal not visible in the code.
- Referential integrity is not modelled, because the code does not enforce it. A row may name a department that does not exist, and the listing then omits it.
- Server.ListEmployees: returns the rows keyed by employee id. The order of the SQL result is unspecified without ORDER BY, so it is not modelled.
- Client.Employee: name, phone and email are taken to be strings. A null in those columns would make the edit form hold null, which is not modelled.
- Date-format validation of the date of birth is not modelled, because neither side performs any.
- JSON numbers in request bodies are modelled as reals. JSON cannot carry NaN or infinities.

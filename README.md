# Employee management: a Dafny model

This project models the core of a small employee-management system. There are two parts:

- **The Spring server.** `EmployeeService` and `DepartmentService` run over two
  repositories. The `Employee` entity stamps its own dates through JPA lifecycle hooks.
- **The single-page browser client (`app.js`).** It holds snapshots of both collections
  and an editing session. Its handlers load, filter, search, open and close the forms,
  save and delete.

Module layout:

- `Wrappers` (`wrappers.dfy`): `Option` and `Result`, the stand-ins for `null` and for
  thrown exceptions.
- `Seqs` (`seqs.dfy`): filtering, subsequences, first-match search and substring
  containment. This is `Array.filter`, `Array.find` and `String.includes` on the
  client, and the derived queries on the server.
- `Faults` (`faults.dfy`): the two exception kinds and their message texts.
- `Entities` (`entities.dfy`): `Employee` and `Department` as values, plus the
  `EmployeeEntity` class. Its setters and its `onCreate`/`onUpdate` hooks update the
  entity in place.
- `Repositories` (`repositories.dfy`): each repository is a class with a table of rows
  in insertion order and an identity counter. It keeps the invariant that ids are set,
  distinct and below the counter. `save` inserts or overwrites; `delete` removes one row.
- `EmployeeServices`, `DepartmentServices` (`employee_service.dfy`,
  `department_service.dfy`): the services as classes over those repositories. Each
  operation either succeeds with the stored row or fails with the exception the source
  throws. Both uniqueness rules (employee email, department name) are proved to be
  preserved. `getAllDepartments` recomputes the counts in place over an array.
- `Views` (`views.dfy`): the pure views the client derives from its snapshots. These
  are the dropdown filter, the keyword search, the dashboard numbers, the five-entry
  panels and the dropdown options.
- `Console` (`console.dfy`): the client's global state as the `Client` class. The class
  also records what the user observes, namely the table, the notifications and the
  requests sent. Each handler is a method.

Dates are whole day numbers. Where the source reads the clock, `today` is a parameter.
Server replies reach the client as `Response` parameters, and the `confirm` dialog is a
`bool` parameter.

## Model

| member | source | states |
|---|---|---|
| Entities.EmployeeEntity.constructor | src/main/java/com/employeemanagement/model/Employee.java:16-61 | a new entity has no id and no timestamps; its status is "Active" |
| Entities.EmployeeEntity.FromRecord | src/main/java/com/employeemanagement/model/Employee.java:17 | the all-arguments constructor holds exactly the given record |
| Entities.EmployeeEntity.SetFirstName | src/main/java/com/employeemanagement/service/EmployeeService.java:36 | only `firstName` changes |
| Entities.EmployeeEntity.SetLastName | src/main/java/com/employeemanagement/service/EmployeeService.java:37 | only `lastName` changes |
| Entities.EmployeeEntity.SetEmail | src/main/java/com/employeemanagement/service/EmployeeService.java:44 | only `email` changes |
| Entities.EmployeeEntity.SetPhone | src/main/java/com/employeemanagement/service/EmployeeService.java:47 | only `phone` changes |
| Entities.EmployeeEntity.SetDepartment | src/main/java/com/employeemanagement/service/EmployeeService.java:48 | only `department` changes |
| Entities.EmployeeEntity.SetPosition | src/main/java/com/employeemanagement/service/EmployeeService.java:49 | only `position` changes |
| Entities.EmployeeEntity.SetSalary | src/main/java/com/employeemanagement/service/EmployeeService.java:50 | only `salary` changes |
| Entities.EmployeeEntity.SetHireDate | src/main/java/com/employeemanagement/service/EmployeeService.java:51 | only `hireDate` changes |
| Entities.EmployeeEntity.SetAddress | src/main/java/com/employeemanagement/service/EmployeeService.java:52 | only `address` changes |
| Entities.EmployeeEntity.SetStatus | src/main/java/com/employeemanagement/service/EmployeeService.java:53 | only `status` changes |
| Entities.EmployeeEntity.OnCreate | src/main/java/com/employeemanagement/model/Employee.java:69-76 | both timestamps become today; a null status becomes "Active" and a set one is kept; nothing else changes |
| Entities.EmployeeEntity.OnUpdate | src/main/java/com/employeemanagement/model/Employee.java:78-81 | only `updatedAt` changes, to today |
| Repositories.EmployeeRepository.Save | src/main/java/com/employeemanagement/service/EmployeeService.java:30-55 | an entity whose id names no row gets the next identity and runs `onCreate`; it is appended and returned as stored. Otherwise `onUpdate` runs and the row is overwritten in place, keeping its `createdAt`. Ids stay distinct |
| Repositories.EmployeeRepository.Delete | src/main/java/com/employeemanagement/service/EmployeeService.java:60 | the first row with the id is removed; the others keep their order |
| Repositories.DepartmentRepository.Save | src/main/java/com/employeemanagement/service/DepartmentService.java:43-59 | insert under a fresh identity, or overwrite the row with the same id |
| Repositories.DepartmentRepository.Delete | src/main/java/com/employeemanagement/service/DepartmentService.java:64 | the row with the id is removed; the others keep their order |
| EmployeeServices.EmployeeService.GetAllEmployees | src/main/java/com/employeemanagement/service/EmployeeService.java:17-19 | the stored rows, in order |
| EmployeeServices.EmployeeService.GetEmployeeById | src/main/java/com/employeemanagement/service/EmployeeService.java:21-24 | succeeds exactly when a row has the id, returning that row; otherwise fails with `not found with id: <id>` |
| EmployeeServices.EmployeeService.CreateEmployee | src/main/java/com/employeemanagement/service/EmployeeService.java:26-31 | a taken email fails with the duplicate-email error and changes nothing. Otherwise a new entity is appended under the next identity, stamped by `onCreate`; an entity carrying a stored id overwrites that row with its own fields, `updatedAt` today and the old `createdAt`. Distinct emails stay distinct |
| EmployeeServices.EmployeeService.UpdateEmployee | src/main/java/com/employeemanagement/service/EmployeeService.java:33-56 | an unknown id fails and changes nothing. Changing to an email another row holds fails and changes nothing. Otherwise the row in the same position gets the ten submitted fields, keeps its id and `createdAt`, and `updatedAt` becomes today. Distinct emails stay distinct |
| EmployeeServices.EmployeeService.DeleteEmployee | src/main/java/com/employeemanagement/service/EmployeeService.java:58-61 | an unknown id fails and changes nothing; otherwise that row is removed and no row has the id any more |
| EmployeeServices.EmployeeService.GetEmployeesByDepartment | src/main/java/com/employeemanagement/service/EmployeeService.java:63-65 | the rows with that department string, in table order, and all of them |
| EmployeeServices.EmployeeService.GetEmployeesByStatus | src/main/java/com/employeemanagement/service/EmployeeService.java:67-69 | the rows with that status, in table order, and all of them |
| EmployeeServices.EmployeeService.SearchEmployees | src/main/java/com/employeemanagement/service/EmployeeService.java:71-73 | the rows whose first or last name contains the keyword (case-sensitive), in table order, and all of them |
| EmployeeServices.DistinctIdsPinRow | src/main/java/com/employeemanagement/service/EmployeeService.java:21-24 | with distinct ids, the row found by id is the one at its position |
| EmployeeServices.EmailsStayDistinctAppend | src/main/java/com/employeemanagement/service/EmployeeService.java:26-31 | appending a row with an email no row holds keeps emails distinct |
| EmployeeServices.EmailsStayDistinctAt | src/main/java/com/employeemanagement/service/EmployeeService.java:39-45 | overwriting a row keeps emails distinct when the email is unchanged or held by no row |
| DepartmentServices.WithCounts | src/main/java/com/employeemanagement/service/DepartmentService.java:21-29 | the same departments in the same order; each count is the number of employees carrying its name |
| DepartmentServices.DepartmentService.GetAllDepartments | src/main/java/com/employeemanagement/service/DepartmentService.java:21-29 | every stored department in order, each with its count set to the number of employees naming it; neither table changes |
| DepartmentServices.DepartmentService.GetDepartmentById | src/main/java/com/employeemanagement/service/DepartmentService.java:31-37 | succeeds exactly when a row has the id, returning it with its count recomputed; otherwise fails with `not found with id: <id>` |
| DepartmentServices.DepartmentService.CreateDepartment | src/main/java/com/employeemanagement/service/DepartmentService.java:39-44 | a taken name fails with the duplicate-name error and changes nothing; otherwise the department is inserted. Distinct names stay distinct |
| DepartmentServices.DepartmentService.UpdateDepartment | src/main/java/com/employeemanagement/service/DepartmentService.java:46-60 | an unknown id, or a rename to a name another row holds, fails and changes nothing. Otherwise the row gets the new name, description and manager. Its saved count is the one computed under the old name. Employees are untouched |
| DepartmentServices.DepartmentService.DeleteDepartment | src/main/java/com/employeemanagement/service/DepartmentService.java:62-65 | an unknown id fails; otherwise that row is removed; employees are untouched |
| DepartmentServices.DistinctDepartmentIdsPinRow | src/main/java/com/employeemanagement/service/DepartmentService.java:31-33 | with distinct ids, the row found by id is the one at its position |
| DepartmentServices.NamesStayDistinctAppend | src/main/java/com/employeemanagement/service/DepartmentService.java:39-44 | appending a department whose name no row holds keeps names distinct |
| DepartmentServices.NamesStayDistinctAt | src/main/java/com/employeemanagement/service/DepartmentService.java:49-54 | overwriting a row keeps names distinct when the name is unchanged or held by no row |
| DepartmentServices.CountsCoverNamedStaff | src/main/java/com/employeemanagement/service/DepartmentService.java:21-29 | with distinct names, the counts add up to the number of employees whose department string names a stored department, and so never exceed the employee count. An employee left under a deleted or renamed department is counted nowhere |
| Seqs.ContainsIffSomeOffset | src/main/resources/static/js/app.js:240-245 | `includes` holds exactly when the keyword starts at some offset of the text |
| Views.Lower | src/main/resources/static/js/app.js:232 | `toLowerCase` keeps the length, leaves no ASCII capital, and keeps every character that is not one |
| Views.LowerIdempotent | src/main/resources/static/js/app.js:232 | lower-casing an already lower-cased text changes nothing |
| Views.FilterEmployees | src/main/resources/static/js/app.js:214-229 | the employees matching every dropdown that is set, in snapshot order, each exactly as many times as the snapshot holds it; with no dropdown set, the whole snapshot |
| Seqs.FilterCounts | src/main/resources/static/js/app.js:220-226 | `Array.filter` keeps each value that passes as many times as the input holds it, and no value that fails |
| Views.FilterIsIntersection | src/main/resources/static/js/app.js:220-226 | with both dropdowns set, the order of the two filters does not matter, and the result is the intersection of the two single filters |
| Views.SearchEmployees | src/main/resources/static/js/app.js:231-248 | an empty keyword shows the whole snapshot. Otherwise the result keeps snapshot order, and holds exactly the employees whose first name, last name, email, department or position contains the lower-cased keyword, each as many times as the snapshot holds it |
| Views.SearchIgnoresCase | src/main/resources/static/js/app.js:232-246 | inputs that lower-case alike give the same result, and an input searches as its lower-cased form does |
| Views.SearchIgnoresPhoneAndAddress | src/main/resources/static/js/app.js:240-246 | snapshots differing only in phone and address give results differing only there, position by position |
| Views.Dashboard | src/main/resources/static/js/app.js:109-126 | total employees and total departments are the snapshot sizes; active and new-hire counts never exceed the total |
| Views.DashboardAppend | src/main/resources/static/js/app.js:111-120 | one more employee adds 1 to the total, 1 to active exactly when its status is "Active", and 1 to new hires exactly when its hire date is at most 30 days ago (or later) |
| Views.AllActiveExactly | src/main/resources/static/js/app.js:111 | the active count equals the total exactly when every employee's status is "Active" |
| Views.NewHiresShrinkOverTime | src/main/resources/static/js/app.js:115-120 | for fixed snapshots, the new-hire count never grows as days pass |
| Views.FirstFive | src/main/resources/static/js/app.js:128-164 | what both panels draw: the first five entries of the snapshot, in order, or all of them if there are fewer |
| Views.DepartmentOptions | src/main/resources/static/js/app.js:412-422 | an empty "all / select" option, then every department name in snapshot order |
| Views.OptionsDriveFilter | src/main/resources/static/js/app.js:412-422 | the first option imposes no department filter; option `i + 1` keeps exactly department `i`'s employees |
| Console.SaveErrorMessage | src/main/resources/static/js/app.js:320-331 | the message the error body supplies unless it is missing or empty, else the fallback; never blank |
| Console.EmployeeFormOf | src/main/resources/static/js/app.js:261-273 | the edit form shows each field of the row, a null status or address as "", and the department only when the department select offers it (else ""); the department shown is always an option |
| Console.UntouchedEditKeepsDetails | src/main/resources/static/js/app.js:261-302 | saving an untouched edit form sends back the row's own details exactly when its address and status are set and its department is still an option |
| Console.UntouchedDepartmentEditKeepsDetails | src/main/resources/static/js/app.js:435-465 | saving an untouched department form sends back its own name, description and manager exactly when description and manager are set |
| Console.ReopenedDepartmentFormShowsSubmitted | src/main/resources/static/js/app.js:435-465 | once a department's fields hold what a form submitted, editing it again shows exactly that form |
| Console.ReopenedFormShowsSubmitted | src/main/resources/static/js/app.js:261-302 | once an update has stored a form's details, editing that row again shows exactly that form, provided its department is still an option |
| Console.EmployeeEditForm | src/main/resources/static/js/app.js:255-273 | the reset form unless the target is truthy and some snapshot row has that id; then the form of the first such row |
| Console.DepartmentEditForm | src/main/resources/static/js/app.js:429-441 | the reset form unless the target is truthy and some department has that id; then the form of the first such department |
| Console.Client.constructor | src/main/resources/static/js/app.js:5-8 | empty snapshots, nothing being edited, no notices and no requests |
| Console.Client.TableRowsAreLoaded | src/main/resources/static/js/app.js:182-212 | while the table invariant holds, every row the table shows is a row of the employees snapshot |
| Console.Client.LoadEmployees | src/main/resources/static/js/app.js:167-180 | one GET. On success the body becomes the snapshot and the whole table. On failure one error notice is added and nothing else changes |
| Console.Client.LoadDepartments | src/main/resources/static/js/app.js:361-375 | one GET. On success the body becomes the snapshot, and the employee form's department select, rebuilt with no option selected, reads "" while its other inputs keep their values. On failure one error notice is added and nothing else changes |
| Console.Client.ApplyFilter | src/main/resources/static/js/app.js:214-229 | the table becomes the filter result; nothing else changes |
| Console.Client.ApplySearch | src/main/resources/static/js/app.js:231-248 | the table becomes the search result; nothing else changes |
| Console.Client.OpenEmployeeModal | src/main/resources/static/js/app.js:251-281 | the target is remembered and the modal shown. The form is reset unless the target is truthy and some snapshot row has that id; then it is filled from the first such row, with the department select limited to the loaded department names (`EmployeeEditForm`) |
| Console.Client.CloseEmployeeModal | src/main/resources/static/js/app.js:283-286 | the modal is hidden and the target forgotten |
| Console.Client.OpenDepartmentModal | src/main/resources/static/js/app.js:425-448 | as for employees, over the department snapshot |
| Console.Client.CloseDepartmentModal | src/main/resources/static/js/app.js:450-453 | the modal is hidden and the target forgotten |
| Console.Client.SubmitEmployee | src/main/resources/static/js/app.js:288-333 | a PUT to the target if it is truthy, else a POST. On success: "updated" or "added", the modal closed, then employees, employees and departments reloaded, the last of which resets the form's department select. On failure: the error message, and the session kept |
| Console.Client.SubmitDepartment | src/main/resources/static/js/app.js:455-493 | the same, with the reloads in the order departments, employees, departments |
| Console.Client.DeleteEmployee | src/main/resources/static/js/app.js:339-358 | nothing at all unless confirmed. Then a DELETE: on success a notice and three reloads, on failure "Error deleting employee". The session changes only through the departments reload resetting the employee form's department select |
| Console.Client.DeleteDepartment | src/main/resources/static/js/app.js:499-518 | the same for departments, with the reloads departments, employees, departments |

## Left out

- Spring Data generates both repositories from their derived query names. Each is
  modelled from those names as an in-memory table; the persistence context and the
  database are abstracted.
- Repositories.EmployeeRepository.Save: `onUpdate` runs on every save of a known row.
  It models no dirty check and no flush timing.
- Repositories.EmployeeRepository.Save and Repositories.DepartmentRepository.Save:
  merging a detached entity whose id names no row is modelled as an insert under a
  fresh identity.
- The server's search is case-sensitive as written. A database collation that
  ignores case is not modelled.
- DepartmentServices.DepartmentService.CreateDepartment and
  DepartmentServices.DepartmentService.UpdateDepartment: the `@NotBlank` check on the
  department name, which the controller applies through `@Valid`, is not modelled. A
  blank name is accepted like any other.
- EmployeeServices.EmployeeService.CreateEmployee: Bean Validation is not modelled.
  This covers `@NotBlank`, `@Email` and `@NotNull`, which the controller would apply.
  Java `null` in the non-null text fields is modelled as "", a null salary as 0.0 and
  a null hire date as day 0.
- `Long` overflow of identities is not modelled; ids are unbounded integers.
- Salary is a Dafny `real`. It is only ever copied, so no floating-point behaviour is
  modelled. `parseFloat` giving `NaN` is not modelled.
- Dates are day numbers. The client compares `Date` timestamps against "now minus 30
  days" in the browser's time zone. The model's cut-off of `today - 30` on whole days
  abstracts that time of day.
- `toLowerCase` is modelled on ASCII letters only.
- DOM rendering is not modelled: HTML strings, avatars, the status badge and `|| 0`
  on counts. The table is recorded as the list it draws.
- `showNotification` is recorded as a list of notices; timers and animation are left
  out.
- The client's `fetch` calls are not awaited against each other. The model runs each
  reload to completion in the order it is started. Both employee fetches of one reload
  get the same reply, and no other handler runs in between.
- Console.Client.OpenEmployeeModal: the reset form is one value (`None`); the page's
  default input values are not modelled.
- Console.EmployeeFormOf: the status dropdown's options are fixed in the page markup,
  which is not part of this model. A null status is shown as "", but any other status
  is assumed to be one of the offered options.
- EmployeeServices.EmployeeService.UpdateEmployee: column constraints are not
  modelled. A null status passed in the details is stored as given. The `status`
  column is `nullable = false`, so the source's save would fail when the change is
  flushed.
- Console.Client.LoadEmployees: reply rows are assumed to carry the non-null status and
  salary that the columns guarantee. A reply row with a null status would make
  `displayEmployees` throw after the snapshot is assigned. The table would then keep
  its old rows and an "Error loading employees" notice would appear. The model does
  not capture that path.
- `initializeApp`, `setupNavigation`, `showPage`, `setupEventListeners`,
  `toggleSidebar` and `loadDashboard`'s own error path are not modelled. They are DOM
  wiring; `loadDashboard`'s loads are the reloads above.
- The Spring MVC controllers and the framework's mapping of exceptions to HTTP status
  codes are not modelled. Their replies reach the client only as `Response` values.
- The client's dashboard counts new hires with no upper bound: employees hired after
  today are counted. The model follows the code here, not a window closed at today.
- The client treats only the empty input as "no keyword". Whitespace is searched
  literally.

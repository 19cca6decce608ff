/** The browser client: the global snapshots and editing session of the single page,
    the handlers that load, filter, open and close the forms, save and delete, and
    what the user observes of them (the table, the notices, the requests sent). */
module Console {
  import opened Wrappers
  import opened Seqs
  import opened Entities
  import opened Views
  import EmployeeServices

  datatype NoticeKind = SuccessNotice | ErrorNotice

  /** A toast shown by `showNotification`. */
  datatype Notice = Notice(message: string, kind: NoticeKind)

  /** What a `fetch` settles to: the body of a 2xx answer, or a failure carrying the
      `message` the error body supplies (None when it supplies none). A transport error
      is a failure whose message is the browser's. */
  datatype Response<T> = Ok(body: T) | Fail(message: Option<string>)

  /** The values of the employee form's inputs. */
  datatype EmployeeDraft = EmployeeDraft(
    firstName: string,
    lastName: string,
    email: string,
    phone: string,
    department: string,
    position: string,
    salary: real,
    hireDate: int,
    status: string,
    address: string)

  /** The values of the department form's inputs. */
  datatype DepartmentDraft = DepartmentDraft(name: string, manager: string, description: string)

  datatype Collection = Employees | Departments

  datatype Body = EmployeeBody(employee: EmployeeDraft) | DepartmentBody(department: DepartmentDraft)

  /** A request the client sends to `/api/employees` or `/api/departments`. */
  datatype Request =
    | Get(collection: Collection)
    | Post(collection: Collection, body: Body)
    | Put(collection: Collection, id: int, body: Body)
    | Delete(collection: Collection, id: int)

  /** JavaScript truthiness of `currentEditingEmployee` / `currentEditingDepartment`:
      null and 0 are falsy. */
  predicate Truthy(target: Option<int>)
  {
    target.Some? && target.value != 0
  }

  /** `x || ''` on a nullable string. */
  function OrEmpty(s: Option<string>): (r: string)
    ensures s.Some? ==> r == s.value
    ensures s.None? ==> r == ""
  {
    if s.Some? then s.value else ""
  }

  /** `error.message || fallback`: the message the error body supplies unless it is
      missing or empty. The notice is never blank when the fallback is not. */
  function SaveErrorMessage(message: Option<string>, fallback: string): (r: string)
    ensures message.Some? && message.value != "" ==> r == message.value
    ensures message.None? || message.value == "" ==> r == fallback
    ensures fallback != "" ==> r != ""
  {
    if message.Some? && message.value != "" then message.value else fallback
  }

  const EmployeeSaveFallback: string := "Failed to save employee"
  const DepartmentSaveFallback: string := "Failed to save department"

  /** The edit form as `openEmployeeModal` fills it from a row, while the department
      select offers `DepartmentOptions(departments)`: a department name it does not
      offer (one renamed or deleted since) reads back as "". */
  function EmployeeFormOf(e: Employee, departments: seq<Department>): (d: EmployeeDraft)
    ensures d.firstName == e.firstName && d.lastName == e.lastName && d.email == e.email
    ensures d.phone == e.phone && d.position == e.position
    ensures d.salary == e.salary && d.hireDate == e.hireDate
    ensures d.status == OrEmpty(e.status) && d.address == OrEmpty(e.address)
    ensures d.department in DepartmentOptions(departments)
    ensures d.department == e.department <==> e.department in DepartmentOptions(departments)
  {
    var department := if e.department in DepartmentOptions(departments) then e.department else "";
    EmployeeDraft(e.firstName, e.lastName, e.email, e.phone, department, e.position,
                  e.salary, e.hireDate, OrEmpty(e.status), OrEmpty(e.address))
  }

  /** The edit form as `openDepartmentModal` fills it from a row. */
  function DepartmentFormOf(d: Department): (f: DepartmentDraft)
    ensures f.name == d.name && f.manager == OrEmpty(d.manager) && f.description == OrEmpty(d.description)
  {
    DepartmentDraft(d.name, OrEmpty(d.manager), OrEmpty(d.description))
  }

  /** The department the server deserialises from a submitted department form. */
  function DepartmentDetailsOf(f: DepartmentDraft): (d: Department)
    ensures d.id.None? && d.employeeCount == 0
    ensures d.name == f.name && d.description == Some(f.description) && d.manager == Some(f.manager)
  {
    NewDepartment(f.name, Some(f.description), Some(f.manager))
  }

  /** Opening a department for edit and saving the form untouched sends back its own
      name, description and manager exactly when the latter two are set. */
  lemma UntouchedDepartmentEditKeepsDetails(d: Department)
    ensures var sent := DepartmentDetailsOf(DepartmentFormOf(d));
      sent.name == d.name && sent.description == d.description && sent.manager == d.manager
      <==> d.description.Some? && d.manager.Some?
  {
  }

  /** After an update has stored a submitted department form's fields, opening that
      department again shows exactly the form that was submitted. */
  lemma ReopenedDepartmentFormShowsSubmitted(f: DepartmentDraft, after: Department)
    requires after.name == DepartmentDetailsOf(f).name
    requires after.description == DepartmentDetailsOf(f).description
    requires after.manager == DepartmentDetailsOf(f).manager
    ensures DepartmentFormOf(after) == f
  {
  }

  /** The record the server deserialises from a submitted employee form: every input
      arrives as a (possibly empty) string, no id and no timestamps. */
  function EmployeeDetailsOf(d: EmployeeDraft): (e: Employee)
    ensures e.id.None? && e.createdAt.None? && e.updatedAt.None?
    ensures e.address == Some(d.address) && e.status == Some(d.status)
  {
    Employee(None, d.firstName, d.lastName, d.email, d.phone, d.department, d.position,
             d.salary, d.hireDate, Some(d.address), Some(d.status), None, None)
  }

  /** The ten fields a form edits agree. */
  predicate SameDetails(a: Employee, b: Employee)
  {
    && a.firstName == b.firstName && a.lastName == b.lastName && a.email == b.email
    && a.phone == b.phone && a.department == b.department && a.position == b.position
    && a.salary == b.salary && a.hireDate == b.hireDate
    && a.address == b.address && a.status == b.status
  }

  /** Opening a row for edit and saving the form untouched sends the row's own details
      back exactly when its address and status are set and its department is still on
      offer; a null one comes back as "", and so does a department no longer listed. */
  lemma UntouchedEditKeepsDetails(e: Employee, departments: seq<Department>)
    ensures SameDetails(EmployeeDetailsOf(EmployeeFormOf(e, departments)), e)
        <==> e.address.Some? && e.status.Some? && e.department in DepartmentOptions(departments)
  {
  }

  /** After a successful update (which stores the submitted details), opening the same
      row again shows exactly the form that was submitted, as long as its department is
      still on offer. */
  lemma ReopenedFormShowsSubmitted(before: Employee, d: EmployeeDraft, today: int, after: Employee,
                                   departments: seq<Department>)
    requires EmployeeServices.CopiedDetails(before, EmployeeDetailsOf(d), today, after)
    requires d.department in DepartmentOptions(departments)
    ensures EmployeeFormOf(after, departments) == d
  {
  }

  /** The notice a failed load adds. */
  function LoadNotices<T>(reply: Response<T>, message: string): (r: seq<Notice>)
    ensures reply.Ok? ==> r == []
    ensures reply.Fail? ==> r == [Notice(message, ErrorNotice)]
  {
    if reply.Ok? then [] else [Notice(message, ErrorNotice)]
  }

  /** A snapshot after a load: the body on success, unchanged otherwise. */
  function Loaded<T>(previous: T, reply: Response<T>): (r: T)
    ensures reply.Ok? ==> r == reply.body
    ensures reply.Fail? ==> r == previous
  {
    if reply.Ok? then reply.body else previous
  }

  /** The employee form after a successful departments load: `populateDepartmentFilters`
      rebuilds the department select's options, none of them selected, so the select
      falls back to its first option, "". The other inputs keep their values. */
  function AfterDepartmentOptionsRefill<T>(form: Option<EmployeeDraft>, reply: Response<T>): (r: Option<EmployeeDraft>)
    ensures r.Some? <==> form.Some?
    ensures r.Some? && reply.Ok? ==> r.value == form.value.(department := "")
    ensures reply.Fail? ==> r == form
  {
    if reply.Ok? && form.Some? then Some(form.value.(department := "")) else form
  }

  const EmployeesLoadError: string := "Error loading employees"
  const DepartmentsLoadError: string := "Error loading departments"

  /** What `openEmployeeModal(target)` fills the form with: nothing (the reset form)
      unless the target is truthy and names a snapshot row, then the first such row. */
  function EmployeeEditForm(employees: seq<Employee>, departments: seq<Department>, target: Option<int>): (r: Option<EmployeeDraft>)
    ensures !Truthy(target) ==> r.None?
    ensures Truthy(target) ==>
      (r.Some? <==> exists i :: 0 <= i < |employees| && employees[i].id == target)
    ensures r.Some? ==>
      exists i :: 0 <= i < |employees| && employees[i].id == target
        && r.value == EmployeeFormOf(employees[i], departments)
        && forall j :: 0 <= j < i ==> employees[j].id != target
  {
    if !Truthy(target) then None
    else
      assert forall i :: 0 <= i < |employees| ==> (EmployeeWithId(target.value)(employees[i]) <==> employees[i].id == target);
      match IndexWhere(employees, EmployeeWithId(target.value))
      case None => None
      case Some(k) => Some(EmployeeFormOf(employees[k], departments))
  }

  /** What `openDepartmentModal(target)` fills the form with. */
  function DepartmentEditForm(departments: seq<Department>, target: Option<int>): (r: Option<DepartmentDraft>)
    ensures !Truthy(target) ==> r.None?
    ensures Truthy(target) ==>
      (r.Some? <==> exists i :: 0 <= i < |departments| && departments[i].id == target)
    ensures r.Some? ==>
      exists i :: 0 <= i < |departments| && departments[i].id == target
        && r.value == DepartmentFormOf(departments[i])
        && forall j :: 0 <= j < i ==> departments[j].id != target
  {
    if !Truthy(target) then None
    else
      assert forall i :: 0 <= i < |departments| ==> (DepartmentWithId(target.value)(departments[i]) <==> departments[i].id == target);
      match IndexWhere(departments, DepartmentWithId(target.value))
      case None => None
      case Some(k) => Some(DepartmentFormOf(departments[k]))
  }

  /** Which row each modal edits, what its form was filled with (None: the reset form)
      and whether it is shown. */
  datatype Session = Session(
    editingEmployee: Option<int>,
    editingDepartment: Option<int>,
    employeeForm: Option<EmployeeDraft>,
    departmentForm: Option<DepartmentDraft>,
    employeeModalOpen: bool,
    departmentModalOpen: bool)

  /** The single page's state. The dashboard, the two panels and the dropdown options
      are functions of the two snapshots (`Views`); the employees table is the last
      list `displayEmployees` drew. */
  class Client {
    var employees: seq<Employee>
    var departments: seq<Department>
    var editingEmployee: Option<int>
    var editingDepartment: Option<int>
    var employeeForm: Option<EmployeeDraft>
    var departmentForm: Option<DepartmentDraft>
    var employeeModalOpen: bool
    var departmentModalOpen: bool
    var employeeTable: seq<Employee>
    var notices: seq<Notice>
    var requests: seq<Request>

    /** Every list the table draws is drawn from the employees snapshot, in its order. */
    ghost predicate Valid()
      reads this
    {
      IsSubsequence(employeeTable, employees)
    }

    /** Under `Valid`, every row the table shows is a row of the snapshot, so its Edit
        and Delete buttons act on a loaded row. */
    lemma TableRowsAreLoaded(e: Employee)
      requires Valid() && e in employeeTable
      ensures e in employees
    {
      SubsequenceMembers(employeeTable, employees, e);
    }

    function CurrentSession(): (s: Session)
      reads this
      ensures s.editingEmployee == editingEmployee && s.editingDepartment == editingDepartment
      ensures s.employeeForm == employeeForm && s.departmentForm == departmentForm
      ensures s.employeeModalOpen == employeeModalOpen && s.departmentModalOpen == departmentModalOpen
    {
      Session(editingEmployee, editingDepartment, employeeForm, departmentForm,
              employeeModalOpen, departmentModalOpen)
    }

    /** The page as the script starts: empty snapshots, nothing being edited. */
    constructor ()
      ensures Valid()
      ensures employees == [] && departments == [] && employeeTable == []
      ensures CurrentSession() == Session(None, None, None, None, false, false)
      ensures notices == [] && requests == []
    {
      employees := [];
      departments := [];
      editingEmployee := None;
      editingDepartment := None;
      employeeForm := None;
      departmentForm := None;
      employeeModalOpen := false;
      departmentModalOpen := false;
      employeeTable := [];
      notices := [];
      requests := [];
      SubsequenceReflexive<Employee>([]);
    }

    method Notify(message: string, kind: NoticeKind)
      modifies this
      ensures notices == old(notices) + [Notice(message, kind)]
      ensures requests == old(requests)
      ensures employees == old(employees) && departments == old(departments) && employeeTable == old(employeeTable)
      ensures CurrentSession() == old(CurrentSession())
    {
      notices := notices + [Notice(message, kind)];
    }

    method Send(request: Request)
      modifies this
      ensures requests == old(requests) + [request]
      ensures notices == old(notices)
      ensures employees == old(employees) && departments == old(departments) && employeeTable == old(employeeTable)
      ensures CurrentSession() == old(CurrentSession())
    {
      requests := requests + [request];
    }

    /** `loadEmployees`: GET the list; on success it becomes the snapshot and the whole
        table (any filter or search shown before is dropped). */
    method LoadEmployees(reply: Response<seq<Employee>>)
      requires Valid()
      modifies this
      ensures Valid()
      ensures requests == old(requests) + [Get(Employees)]
      ensures employees == Loaded(old(employees), reply)
      ensures employeeTable == if reply.Ok? then reply.body else old(employeeTable)
      ensures notices == old(notices) + LoadNotices(reply, EmployeesLoadError)
      ensures departments == old(departments) && CurrentSession() == old(CurrentSession())
    {
      Send(Get(Employees));
      if reply.Ok? {
        employees := reply.body;
        employeeTable := reply.body;
        SubsequenceReflexive(reply.body);
      } else {
        Notify(EmployeesLoadError, ErrorNotice);
      }
    }

    /** `loadDepartments`: GET the list; on success it becomes the snapshot the grid,
        both dropdowns, the dashboard and the overview are drawn from, and the refilled
        department select of the employee form reads "" again. */
    method LoadDepartments(reply: Response<seq<Department>>)
      requires Valid()
      modifies this
      ensures Valid()
      ensures requests == old(requests) + [Get(Departments)]
      ensures departments == Loaded(old(departments), reply)
      ensures notices == old(notices) + LoadNotices(reply, DepartmentsLoadError)
      ensures employees == old(employees) && employeeTable == old(employeeTable)
      ensures CurrentSession()
           == old(CurrentSession()).(employeeForm := AfterDepartmentOptionsRefill(old(employeeForm), reply))
    {
      Send(Get(Departments));
      if reply.Ok? {
        departments := reply.body;
        employeeForm := AfterDepartmentOptionsRefill(employeeForm, reply);
      } else {
        Notify(DepartmentsLoadError, ErrorNotice);
      }
    }

    /** `filterEmployees` after a dropdown changes. */
    method ApplyFilter(department: string, status: string)
      requires Valid()
      modifies this
      ensures Valid()
      ensures employeeTable == FilterEmployees(employees, department, status)
      ensures employees == old(employees) && departments == old(departments)
      ensures notices == old(notices) && requests == old(requests)
      ensures CurrentSession() == old(CurrentSession())
    {
      employeeTable := FilterEmployees(employees, department, status);
    }

    /** `handleGlobalSearch` on each keystroke. */
    method ApplySearch(input: string)
      requires Valid()
      modifies this
      ensures Valid()
      ensures employeeTable == SearchEmployees(employees, input)
      ensures employees == old(employees) && departments == old(departments)
      ensures notices == old(notices) && requests == old(requests)
      ensures CurrentSession() == old(CurrentSession())
    {
      employeeTable := SearchEmployees(employees, input);
    }

    /** `openEmployeeModal(employeeId)`: reset the form, remember the target, and fill
        the form from the first snapshot row with that id when the target is truthy. */
    method OpenEmployeeModal(target: Option<int>)
      modifies this
      ensures editingEmployee == target && employeeModalOpen
      ensures employeeForm == EmployeeEditForm(employees, departments, target)
      ensures editingDepartment == old(editingDepartment) && departmentForm == old(departmentForm)
      ensures departmentModalOpen == old(departmentModalOpen)
      ensures employees == old(employees) && departments == old(departments) && employeeTable == old(employeeTable)
      ensures notices == old(notices) && requests == old(requests)
    {
      employeeForm := EmployeeEditForm(employees, departments, target);
      editingEmployee := target;
      employeeModalOpen := true;
    }

    /** `closeEmployeeModal`: hide the modal and forget the target; the form keeps its values. */
    method CloseEmployeeModal()
      modifies this
      ensures editingEmployee.None? && !employeeModalOpen
      ensures employeeForm == old(employeeForm)
      ensures editingDepartment == old(editingDepartment) && departmentForm == old(departmentForm)
      ensures departmentModalOpen == old(departmentModalOpen)
      ensures employees == old(employees) && departments == old(departments) && employeeTable == old(employeeTable)
      ensures notices == old(notices) && requests == old(requests)
    {
      editingEmployee := None;
      employeeModalOpen := false;
    }

    /** `openDepartmentModal(departmentId)`. */
    method OpenDepartmentModal(target: Option<int>)
      modifies this
      ensures editingDepartment == target && departmentModalOpen
      ensures departmentForm == DepartmentEditForm(departments, target)
      ensures editingEmployee == old(editingEmployee) && employeeForm == old(employeeForm)
      ensures employeeModalOpen == old(employeeModalOpen)
      ensures employees == old(employees) && departments == old(departments) && employeeTable == old(employeeTable)
      ensures notices == old(notices) && requests == old(requests)
    {
      departmentForm := DepartmentEditForm(departments, target);
      editingDepartment := target;
      departmentModalOpen := true;
    }

    /** `closeDepartmentModal`. */
    method CloseDepartmentModal()
      modifies this
      ensures editingDepartment.None? && !departmentModalOpen
      ensures departmentForm == old(departmentForm)
      ensures editingEmployee == old(editingEmployee) && employeeForm == old(employeeForm)
      ensures employeeModalOpen == old(employeeModalOpen)
      ensures employees == old(employees) && departments == old(departments) && employeeTable == old(employeeTable)
      ensures notices == old(notices) && requests == old(requests)
    {
      editingDepartment := None;
      departmentModalOpen := false;
    }

    /** `handleEmployeeSubmit`: PUT to the target when one is being edited, POST
        otherwise. On success: the matching notice, the modal closed, then
        `loadEmployees` and `loadDashboard` (employees, employees, departments). On
        failure: an error notice, and the modal stays open on the same target. */
    method SubmitEmployee(draft: EmployeeDraft, reply: Response<()>,
                          employeesReply: Response<seq<Employee>>, departmentsReply: Response<seq<Department>>)
      requires Valid()
      modifies this
      ensures Valid()
      ensures var save := if Truthy(old(editingEmployee))
                          then Put(Employees, old(editingEmployee).value, EmployeeBody(draft))
                          else Post(Employees, EmployeeBody(draft));
        requests == old(requests) + [save] +
          (if reply.Ok? then [Get(Employees), Get(Employees), Get(Departments)] else [])
      ensures reply.Fail? ==>
        && notices == old(notices) + [Notice(SaveErrorMessage(reply.message, EmployeeSaveFallback), ErrorNotice)]
        && employees == old(employees) && departments == old(departments) && employeeTable == old(employeeTable)
        && CurrentSession() == old(CurrentSession())
      ensures reply.Ok? ==>
        && notices == old(notices)
             + [Notice(if Truthy(old(editingEmployee)) then "Employee updated successfully"
                       else "Employee added successfully", SuccessNotice)]
             + LoadNotices(employeesReply, EmployeesLoadError) + LoadNotices(employeesReply, EmployeesLoadError)
             + LoadNotices(departmentsReply, DepartmentsLoadError)
        && employees == Loaded(old(employees), employeesReply)
        && employeeTable == (if employeesReply.Ok? then employeesReply.body else old(employeeTable))
        && departments == Loaded(old(departments), departmentsReply)
        && CurrentSession() == old(CurrentSession()).(editingEmployee := None, employeeModalOpen := false,
                                                      employeeForm := AfterDepartmentOptionsRefill(old(employeeForm), departmentsReply))
    {
      var editing := Truthy(editingEmployee);
      if editing {
        Send(Put(Employees, editingEmployee.value, EmployeeBody(draft)));
      } else {
        Send(Post(Employees, EmployeeBody(draft)));
      }
      if reply.Fail? {
        Notify(SaveErrorMessage(reply.message, EmployeeSaveFallback), ErrorNotice);
        return;
      }
      Notify(if editing then "Employee updated successfully" else "Employee added successfully", SuccessNotice);
      CloseEmployeeModal();
      LoadEmployees(employeesReply);
      LoadEmployees(employeesReply);
      LoadDepartments(departmentsReply);
    }

    /** `handleDepartmentSubmit`: as for employees; the reloads are `loadDepartments`
        then `loadDashboard` (departments, employees, departments). */
    method SubmitDepartment(draft: DepartmentDraft, reply: Response<()>,
                            employeesReply: Response<seq<Employee>>, departmentsReply: Response<seq<Department>>)
      requires Valid()
      modifies this
      ensures Valid()
      ensures var save := if Truthy(old(editingDepartment))
                          then Put(Departments, old(editingDepartment).value, DepartmentBody(draft))
                          else Post(Departments, DepartmentBody(draft));
        requests == old(requests) + [save] +
          (if reply.Ok? then [Get(Departments), Get(Employees), Get(Departments)] else [])
      ensures reply.Fail? ==>
        && notices == old(notices) + [Notice(SaveErrorMessage(reply.message, DepartmentSaveFallback), ErrorNotice)]
        && employees == old(employees) && departments == old(departments) && employeeTable == old(employeeTable)
        && CurrentSession() == old(CurrentSession())
      ensures reply.Ok? ==>
        && notices == old(notices)
             + [Notice(if Truthy(old(editingDepartment)) then "Department updated successfully"
                       else "Department added successfully", SuccessNotice)]
             + LoadNotices(departmentsReply, DepartmentsLoadError) + LoadNotices(employeesReply, EmployeesLoadError)
             + LoadNotices(departmentsReply, DepartmentsLoadError)
        && employees == Loaded(old(employees), employeesReply)
        && employeeTable == (if employeesReply.Ok? then employeesReply.body else old(employeeTable))
        && departments == Loaded(old(departments), departmentsReply)
        && CurrentSession() == old(CurrentSession()).(editingDepartment := None, departmentModalOpen := false,
                                                      employeeForm := AfterDepartmentOptionsRefill(old(employeeForm), departmentsReply))
    {
      var editing := Truthy(editingDepartment);
      if editing {
        Send(Put(Departments, editingDepartment.value, DepartmentBody(draft)));
      } else {
        Send(Post(Departments, DepartmentBody(draft)));
      }
      if reply.Fail? {
        Notify(SaveErrorMessage(reply.message, DepartmentSaveFallback), ErrorNotice);
        return;
      }
      Notify(if editing then "Department updated successfully" else "Department added successfully", SuccessNotice);
      CloseDepartmentModal();
      LoadDepartments(departmentsReply);
      LoadEmployees(employeesReply);
      LoadDepartments(departmentsReply);
    }

    /** `deleteEmployee(id)`: nothing at all unless the user confirms; then DELETE, and
        on success a notice and `loadEmployees`, `loadDashboard`. The editing session
        is touched only by the departments reload, which resets the employee form's
        department select. */
    method DeleteEmployee(id: int, confirmed: bool, reply: Response<()>,
                          employeesReply: Response<seq<Employee>>, departmentsReply: Response<seq<Department>>)
      requires Valid()
      modifies this
      ensures Valid()
      ensures CurrentSession() == old(CurrentSession()).(employeeForm :=
        if confirmed && reply.Ok? then AfterDepartmentOptionsRefill(old(employeeForm), departmentsReply) else old(employeeForm))
      ensures !confirmed ==>
        && requests == old(requests) && notices == old(notices)
        && employees == old(employees) && departments == old(departments) && employeeTable == old(employeeTable)
      ensures confirmed && reply.Fail? ==>
        && requests == old(requests) + [Delete(Employees, id)]
        && notices == old(notices) + [Notice("Error deleting employee", ErrorNotice)]
        && employees == old(employees) && departments == old(departments) && employeeTable == old(employeeTable)
      ensures confirmed && reply.Ok? ==>
        && requests == old(requests) + [Delete(Employees, id), Get(Employees), Get(Employees), Get(Departments)]
        && notices == old(notices) + [Notice("Employee deleted successfully", SuccessNotice)]
             + LoadNotices(employeesReply, EmployeesLoadError) + LoadNotices(employeesReply, EmployeesLoadError)
             + LoadNotices(departmentsReply, DepartmentsLoadError)
        && employees == Loaded(old(employees), employeesReply)
        && employeeTable == (if employeesReply.Ok? then employeesReply.body else old(employeeTable))
        && departments == Loaded(old(departments), departmentsReply)
    {
      if !confirmed {
        return;
      }
      Send(Delete(Employees, id));
      if reply.Fail? {
        Notify("Error deleting employee", ErrorNotice);
        return;
      }
      Notify("Employee deleted successfully", SuccessNotice);
      LoadEmployees(employeesReply);
      LoadEmployees(employeesReply);
      LoadDepartments(departmentsReply);
    }

    /** `deleteDepartment(id)`: as for employees; the reloads are departments,
        employees, departments. */
    method DeleteDepartment(id: int, confirmed: bool, reply: Response<()>,
                            employeesReply: Response<seq<Employee>>, departmentsReply: Response<seq<Department>>)
      requires Valid()
      modifies this
      ensures Valid()
      ensures CurrentSession() == old(CurrentSession()).(employeeForm :=
        if confirmed && reply.Ok? then AfterDepartmentOptionsRefill(old(employeeForm), departmentsReply) else old(employeeForm))
      ensures !confirmed ==>
        && requests == old(requests) && notices == old(notices)
        && employees == old(employees) && departments == old(departments) && employeeTable == old(employeeTable)
      ensures confirmed && reply.Fail? ==>
        && requests == old(requests) + [Delete(Departments, id)]
        && notices == old(notices) + [Notice("Error deleting department", ErrorNotice)]
        && employees == old(employees) && departments == old(departments) && employeeTable == old(employeeTable)
      ensures confirmed && reply.Ok? ==>
        && requests == old(requests) + [Delete(Departments, id), Get(Departments), Get(Employees), Get(Departments)]
        && notices == old(notices) + [Notice("Department deleted successfully", SuccessNotice)]
             + LoadNotices(departmentsReply, DepartmentsLoadError) + LoadNotices(employeesReply, EmployeesLoadError)
             + LoadNotices(departmentsReply, DepartmentsLoadError)
        && employees == Loaded(old(employees), employeesReply)
        && employeeTable == (if employeesReply.Ok? then employeesReply.body else old(employeeTable))
        && departments == Loaded(old(departments), departmentsReply)
    {
      if !confirmed {
        return;
      }
      Send(Delete(Departments, id));
      if reply.Fail? {
        Notify("Error deleting department", ErrorNotice);
        return;
      }
      Notify("Department deleted successfully", SuccessNotice);
      LoadDepartments(departmentsReply);
      LoadEmployees(employeesReply);
      LoadDepartments(departmentsReply);
    }
  }
}

/** `EmployeeService`: lookups that throw not-found, email uniqueness on create and
    update, field copying on update, and the three list queries. */
module EmployeeServices {
  import opened Wrappers
  import opened Seqs
  import opened Entities
  import opened Faults
  import opened Repositories

  ghost predicate Stored(rows: seq<Employee>, id: int)
  {
    exists i :: 0 <= i < |rows| && rows[i].id == Some(id)
  }

  /** `after` is the row `before` with the fields `updateEmployee` copies taken from
      `details`: every field but id and createdAt, with updatedAt stamped today. */
  ghost predicate CopiedDetails(before: Employee, details: Employee, today: int, after: Employee)
  {
    && after.id == before.id && after.createdAt == before.createdAt
    && after.updatedAt == Some(today)
    && after.firstName == details.firstName && after.lastName == details.lastName
    && after.email == details.email && after.phone == details.phone
    && after.department == details.department && after.position == details.position
    && after.salary == details.salary && after.hireDate == details.hireDate
    && after.address == details.address && after.status == details.status
  }

  class EmployeeService {
    const repository: EmployeeRepository

    constructor (repository: EmployeeRepository)
      ensures this.repository == repository
    {
      this.repository := repository;
    }

    /** `getAllEmployees`: every stored row, in repository order. */
    method GetAllEmployees() returns (r: seq<Employee>)
      ensures r == repository.rows
    {
      r := repository.rows;
    }

    /** `getEmployeeById`: the row with that id, or not-found. */
    method GetEmployeeById(id: int) returns (r: Result<Employee, Fault>)
      ensures r.Success? <==> Stored(repository.rows, id)
      ensures r.Success? ==> r.value in repository.rows && r.value.id == Some(id)
      ensures r.Failure? ==> r.error == EmployeeNotFound(id)
    {
      var k := IndexWhere(repository.rows, EmployeeWithId(id));
      if k.None? {
        r := Failure(EmployeeNotFound(id));
      } else {
        r := Success(repository.rows[k.value]);
      }
    }

    /** `createEmployee`: rejects an email some row already has; otherwise saves the
        entity, which for a new entity appends exactly the stamped record, and for an
        entity carrying a stored id overwrites that row with the stamped record. */
    method CreateEmployee(employee: EmployeeEntity, today: int) returns (r: Result<Employee, Fault>)
      requires repository.Valid()
      modifies repository, employee
      ensures repository.Valid()
      ensures EmailTaken(old(repository.rows), old(employee.email)) ==>
        && r == Failure(DuplicateEmail(old(employee.email)))
        && repository.rows == old(repository.rows)
        && employee.Record() == old(employee.Record())
      ensures !EmailTaken(old(repository.rows), old(employee.email)) ==>
        && r.Success?
        && r.value.email == old(employee.email)
        && r.value.updatedAt == Some(today)
        && (EmployeeRow(old(repository.rows), old(employee.id)).None? ==>
              && r.value == old(employee.Record()).(id := Some(old(repository.nextId)), createdAt := Some(today),
                                                    updatedAt := Some(today), status := r.value.status)
              && r.value.status == (if old(employee.status).None? then Some(ActiveStatus) else old(employee.status))
              && repository.rows == old(repository.rows) + [r.value])
        && (EmployeeRow(old(repository.rows), old(employee.id)).Some? ==>
              var k := EmployeeRow(old(repository.rows), old(employee.id)).value;
              && k < |old(repository.rows)|
              && r.value == old(employee.Record()).(updatedAt := Some(today), createdAt := old(repository.rows)[k].createdAt)
              && repository.rows == old(repository.rows)[k := r.value])
      ensures EmailsDistinct(old(repository.rows)) ==> EmailsDistinct(repository.rows)
    {
      if EmailTaken(repository.rows, employee.email) {
        r := Failure(DuplicateEmail(employee.email));
        return;
      }
      ghost var before := repository.rows;
      ghost var k := EmployeeRow(repository.rows, employee.id);
      var stored := repository.Save(employee, today);
      r := Success(stored);
      if k.None? {
        EmailsStayDistinctAppend(before, stored);
      } else {
        EmailsStayDistinctAt(before, k.value, stored);
      }
    }

    /** `updateEmployee`: not-found for an absent id; a changed email that another row
        already has is rejected before anything is saved; otherwise the listed fields are
        copied from `details` onto the stored row, keeping its id and creation date. */
    method UpdateEmployee(id: int, details: Employee, today: int) returns (r: Result<Employee, Fault>)
      requires repository.Valid()
      modifies repository
      ensures repository.Valid()
      ensures !Stored(old(repository.rows), id) ==>
        r == Failure(EmployeeNotFound(id)) && repository.rows == old(repository.rows)
      ensures Stored(old(repository.rows), id) ==>
        var k := IndexWhere(old(repository.rows), EmployeeWithId(id)).value;
        var before := old(repository.rows)[k];
        && (before.email != details.email && EmailTaken(old(repository.rows), details.email) ==>
              r == Failure(DuplicateEmail(details.email)) && repository.rows == old(repository.rows))
        && (before.email == details.email || !EmailTaken(old(repository.rows), details.email) ==>
              && r.Success?
              && CopiedDetails(before, details, today, r.value)
              && repository.rows == old(repository.rows)[k := r.value])
      ensures EmailsDistinct(old(repository.rows)) ==> EmailsDistinct(repository.rows)
    {
      var found := GetEmployeeById(id);
      if found.Failure? {
        return found;
      }
      ghost var before := repository.rows;
      ghost var k := IndexWhere(repository.rows, EmployeeWithId(id)).value;
      DistinctIdsPinRow(repository.rows, id, k);
      var employee := new EmployeeEntity.FromRecord(found.value);
      employee.SetFirstName(details.firstName);
      employee.SetLastName(details.lastName);
      if employee.email != details.email {
        if EmailTaken(repository.rows, details.email) {
          return Failure(DuplicateEmail(details.email));
        }
        employee.SetEmail(details.email);
      }
      employee.SetPhone(details.phone);
      employee.SetDepartment(details.department);
      employee.SetPosition(details.position);
      employee.SetSalary(details.salary);
      employee.SetHireDate(details.hireDate);
      employee.SetAddress(details.address);
      employee.SetStatus(details.status);

      var stored := repository.Save(employee, today);
      r := Success(stored);
      EmailsStayDistinctAt(before, k, stored);
    }

    /** `deleteEmployee`: not-found for an absent id; otherwise exactly that row goes. */
    method DeleteEmployee(id: int) returns (r: Result<(), Fault>)
      requires repository.Valid()
      modifies repository
      ensures repository.Valid()
      ensures !Stored(old(repository.rows), id) ==>
        r == Failure(EmployeeNotFound(id)) && repository.rows == old(repository.rows)
      ensures Stored(old(repository.rows), id) ==>
        var k := IndexWhere(old(repository.rows), EmployeeWithId(id)).value;
        && r.Success?
        && repository.rows == old(repository.rows)[..k] + old(repository.rows)[k + 1..]
        && (forall e :: e in repository.rows ==> e.id != Some(id))
    {
      var found := GetEmployeeById(id);
      if found.Failure? {
        return Failure(found.error);
      }
      var k := IndexWhere(repository.rows, EmployeeWithId(id)).value;
      DistinctIdsPinRow(repository.rows, id, k);
      repository.Delete(found.value.id.value);
      r := Success(());
    }

    /** `getEmployeesByDepartment`: exactly the rows of that department, in order. */
    method GetEmployeesByDepartment(department: string) returns (r: seq<Employee>)
      ensures IsSubsequence(r, repository.rows)
      ensures forall i :: 0 <= i < |r| ==> r[i].department == department
      ensures forall e :: e in repository.rows && e.department == department ==> e in r
    {
      r := FindByDepartment(repository.rows, department);
    }

    /** `getEmployeesByStatus`: exactly the rows with that status, in order. */
    method GetEmployeesByStatus(status: string) returns (r: seq<Employee>)
      ensures IsSubsequence(r, repository.rows)
      ensures forall i :: 0 <= i < |r| ==> r[i].status == Some(status)
      ensures forall e :: e in repository.rows && e.status == Some(status) ==> e in r
    {
      r := FindByStatus(repository.rows, status);
    }

    /** `searchEmployees`: the rows whose first or last name contains the keyword. */
    method SearchEmployees(keyword: string) returns (r: seq<Employee>)
      ensures IsSubsequence(r, repository.rows)
      ensures forall i :: 0 <= i < |r| ==> Contains(r[i].firstName, keyword) || Contains(r[i].lastName, keyword)
      ensures forall e :: e in repository.rows && (Contains(e.firstName, keyword) || Contains(e.lastName, keyword)) ==> e in r
    {
      r := Filter(repository.rows, NameContains(keyword));
    }
  }

  /** With distinct ids, the first row carrying an id is the only one. */
  lemma DistinctIdsPinRow(rows: seq<Employee>, id: int, k: nat)
    requires DistinctEmployeeIds(rows)
    requires k < |rows| && rows[k].id == Some(id)
    ensures IndexWhere(rows, EmployeeWithId(id)) == Some(k)
    ensures forall i :: 0 <= i < |rows| && i != k ==> rows[i].id != Some(id)
  {
    var j := IndexWhere(rows, EmployeeWithId(id));
    assert EmployeeWithId(id)(rows[k]);
  }

  /** Appending a row whose email no row has keeps emails distinct. */
  lemma EmailsStayDistinctAppend(before: seq<Employee>, e: Employee)
    requires !EmailTaken(before, e.email)
    ensures EmailsDistinct(before) ==> EmailsDistinct(before + [e])
  {
  }

  /** Overwriting row `k` keeps emails distinct when the new email is that row's own or unused. */
  lemma EmailsStayDistinctAt(before: seq<Employee>, k: nat, e: Employee)
    requires k < |before|
    requires e.email == before[k].email || !EmailTaken(before, e.email)
    ensures EmailsDistinct(before) ==> EmailsDistinct(before[k := e])
  {
  }
}

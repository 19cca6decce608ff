/** The two persisted entities, `Employee` and `Department`, as values, and the
    `Employee` entity object whose JPA lifecycle hooks stamp it in place. */
module Entities {
  import opened Wrappers

  /** An employee row as stored and as sent to the browser. `id` is null until the
      row is first saved; `address` and `status` are nullable columns. Salary is a
      number that is only ever copied. Dates are day numbers. */
  datatype Employee = Employee(
    id: Option<int>,
    firstName: string,
    lastName: string,
    email: string,
    phone: string,
    department: string,
    position: string,
    salary: real,
    hireDate: int,
    address: Option<string>,
    status: Option<string>,
    createdAt: Option<int>,
    updatedAt: Option<int>)

  /** A department row. `employeeCount` is the advisory count the service recomputes. */
  datatype Department = Department(
    id: Option<int>,
    name: string,
    description: Option<string>,
    manager: Option<string>,
    employeeCount: int)

  /** The initial value of `Employee.status`. */
  const ActiveStatus: string := "Active"

  function EmployeeWithId(id: int): Employee -> bool
  {
    (e: Employee) => e.id == Some(id)
  }

  function DepartmentWithId(id: int): Department -> bool
  {
    (d: Department) => d.id == Some(id)
  }

  function InDepartment(department: string): Employee -> bool
  {
    (e: Employee) => e.department == department
  }

  function WithStatus(status: string): Employee -> bool
  {
    (e: Employee) => e.status == Some(status)
  }

  /** A department as deserialised from a request body: `employeeCount` starts at 0. */
  function NewDepartment(name: string, description: Option<string>, manager: Option<string>): (d: Department)
    ensures d.id.None? && d.employeeCount == 0
    ensures d.name == name && d.description == description && d.manager == manager
  {
    Department(None, name, description, manager, 0)
  }

  /** The `Employee` entity object. Its fields are updated in place by setters and
      by the `@PrePersist` and `@PreUpdate` hooks. */
  class EmployeeEntity {
    var id: Option<int>
    var firstName: string
    var lastName: string
    var email: string
    var phone: string
    var department: string
    var position: string
    var salary: real
    var hireDate: int
    var address: Option<string>
    var status: Option<string>
    var createdAt: Option<int>
    var updatedAt: Option<int>

    /** The no-argument constructor: every field unset except `status`, whose
        field initialiser is "Active". Unset strings are modelled as "", the unset
        `salary` as 0.0 and the unset `hireDate` as day 0. */
    constructor ()
      ensures status == Some(ActiveStatus)
      ensures id.None? && address.None? && createdAt.None? && updatedAt.None?
      ensures firstName == lastName == email == phone == department == position == ""
      ensures salary == 0.0 && hireDate == 0
    {
      id, firstName, lastName, email, phone := None, "", "", "", "";
      department, position, salary, hireDate := "", "", 0.0, 0;
      address, status, createdAt, updatedAt := None, Some(ActiveStatus), None, None;
    }

    /** The all-arguments constructor, also how a stored row is loaded into an entity. */
    constructor FromRecord(r: Employee)
      ensures Record() == r
    {
      id, firstName, lastName, email, phone := r.id, r.firstName, r.lastName, r.email, r.phone;
      department, position, salary, hireDate := r.department, r.position, r.salary, r.hireDate;
      address, status, createdAt, updatedAt := r.address, r.status, r.createdAt, r.updatedAt;
    }

    /** The current field values as a row. */
    function Record(): Employee
      reads this
    {
      Employee(id, firstName, lastName, email, phone, department, position, salary,
               hireDate, address, status, createdAt, updatedAt)
    }

    // Lombok's generated setters used by the service; each changes one field.

    method SetFirstName(v: string)
      modifies this
      ensures Record() == old(Record()).(firstName := v)
    {
      firstName := v;
    }

    method SetLastName(v: string)
      modifies this
      ensures Record() == old(Record()).(lastName := v)
    {
      lastName := v;
    }

    method SetEmail(v: string)
      modifies this
      ensures Record() == old(Record()).(email := v)
    {
      email := v;
    }

    method SetPhone(v: string)
      modifies this
      ensures Record() == old(Record()).(phone := v)
    {
      phone := v;
    }

    method SetDepartment(v: string)
      modifies this
      ensures Record() == old(Record()).(department := v)
    {
      department := v;
    }

    method SetPosition(v: string)
      modifies this
      ensures Record() == old(Record()).(position := v)
    {
      position := v;
    }

    method SetSalary(v: real)
      modifies this
      ensures Record() == old(Record()).(salary := v)
    {
      salary := v;
    }

    method SetHireDate(v: int)
      modifies this
      ensures Record() == old(Record()).(hireDate := v)
    {
      hireDate := v;
    }

    method SetAddress(v: Option<string>)
      modifies this
      ensures Record() == old(Record()).(address := v)
    {
      address := v;
    }

    method SetStatus(v: Option<string>)
      modifies this
      ensures Record() == old(Record()).(status := v)
    {
      status := v;
    }

    /** `@PrePersist onCreate`: stamps both dates with today and defaults a null status. */
    method OnCreate(today: int)
      modifies this
      ensures createdAt == Some(today) && updatedAt == Some(today)
      ensures old(status).None? ==> status == Some(ActiveStatus)
      ensures old(status).Some? ==> status == old(status)
      ensures Record() == old(Record()).(createdAt := Some(today), updatedAt := Some(today), status := status)
    {
      createdAt := Some(today);
      updatedAt := Some(today);
      if status.None? {
        status := Some(ActiveStatus);
      }
    }

    /** `@PreUpdate onUpdate`: only the update date changes. */
    method OnUpdate(today: int)
      modifies this
      ensures Record() == old(Record()).(updatedAt := Some(today))
    {
      updatedAt := Some(today);
    }
  }
}

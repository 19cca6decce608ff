/** `DepartmentService`: name uniqueness on create and update, and the employee count
    recomputed from the employee table whenever departments are read. */
module DepartmentServices {
  import opened Wrappers
  import opened Seqs
  import opened Entities
  import opened Faults
  import opened Repositories

  /** `findByDepartment(name).size()`: how many employees carry this department string. */
  function EmployeeCount(employees: seq<Employee>, name: string): nat
  {
    |FindByDepartment(employees, name)|
  }

  /** The departments in the same order, each with its count recomputed. */
  function WithCounts(departments: seq<Department>, employees: seq<Employee>): (r: seq<Department>)
    ensures |r| == |departments|
    ensures forall i :: 0 <= i < |r| ==>
      r[i] == departments[i].(employeeCount := EmployeeCount(employees, departments[i].name))
  {
    if departments == [] then []
    else
      [departments[0].(employeeCount := EmployeeCount(employees, departments[0].name))]
        + WithCounts(departments[1..], employees)
  }

  /** The sum of the `employeeCount` fields. */
  function CountSum(departments: seq<Department>): int
  {
    if departments == [] then 0 else departments[0].employeeCount + CountSum(departments[1..])
  }

  /** The employee's department string names one of these departments. */
  function WorksInOneOf(departments: seq<Department>): Employee -> bool
  {
    (e: Employee) => NameTaken(departments, e.department)
  }

  ghost predicate StoredDepartment(rows: seq<Department>, id: int)
  {
    exists i :: 0 <= i < |rows| && rows[i].id == Some(id)
  }

  class DepartmentService {
    const departments: DepartmentRepository
    const employees: EmployeeRepository

    constructor (departments: DepartmentRepository, employees: EmployeeRepository)
      ensures this.departments == departments && this.employees == employees
    {
      this.departments := departments;
      this.employees := employees;
    }

    /** `getAllDepartments`: every department in repository order, each element's
        `employeeCount` set in place to the number of employees naming it. The
        counts are set on the returned list only; nothing is saved. */
    method GetAllDepartments() returns (r: seq<Department>)
      ensures |r| == |departments.rows|
      ensures forall i :: 0 <= i < |r| ==>
        && r[i].id == departments.rows[i].id && r[i].name == departments.rows[i].name
        && r[i].description == departments.rows[i].description
        && r[i].manager == departments.rows[i].manager
        && r[i].employeeCount == EmployeeCount(employees.rows, departments.rows[i].name)
      ensures r == WithCounts(departments.rows, employees.rows)
    {
      var list := departments.rows;
      var a := new Department[|list|](i requires 0 <= i < |list| => list[i]);
      var i := 0;
      while i < a.Length
        invariant 0 <= i <= a.Length
        invariant forall j :: 0 <= j < i ==> a[j] == list[j].(employeeCount := EmployeeCount(employees.rows, list[j].name))
        invariant forall j :: i <= j < a.Length ==> a[j] == list[j]
      {
        var count := |FindByDepartment(employees.rows, a[i].name)|;
        a[i] := a[i].(employeeCount := count);
        i := i + 1;
      }
      r := a[..];
    }

    /** `getDepartmentById`: not-found for an absent id; otherwise that department with
        its count recomputed. */
    method GetDepartmentById(id: int) returns (r: Result<Department, Fault>)
      ensures r.Success? <==> StoredDepartment(departments.rows, id)
      ensures r.Success? ==>
        exists d :: (d in departments.rows && d.id == Some(id)
                     && r.value == d.(employeeCount := EmployeeCount(employees.rows, d.name)))
      ensures r.Failure? ==> r.error == DepartmentNotFound(id)
    {
      var k := IndexWhere(departments.rows, DepartmentWithId(id));
      if k.None? {
        return Failure(DepartmentNotFound(id));
      }
      var department := departments.rows[k.value];
      var count := |FindByDepartment(employees.rows, department.name)|;
      department := department.(employeeCount := count);
      r := Success(department);
    }

    /** `createDepartment`: rejects a name some department already has; otherwise saves. */
    method CreateDepartment(department: Department) returns (r: Result<Department, Fault>)
      requires departments.Valid()
      modifies departments
      ensures departments.Valid()
      ensures employees.rows == old(employees.rows)
      ensures NameTaken(old(departments.rows), department.name) ==>
        r == Failure(DuplicateDepartmentName(department.name)) && departments.rows == old(departments.rows)
      ensures !NameTaken(old(departments.rows), department.name) ==>
        && r.Success?
        && (DepartmentRow(old(departments.rows), department.id).None? ==>
              && r.value == department.(id := Some(old(departments.nextId)))
              && departments.rows == old(departments.rows) + [r.value])
        && (DepartmentRow(old(departments.rows), department.id).Some? ==>
              && r.value == department
              && departments.rows == old(departments.rows)[DepartmentRow(old(departments.rows), department.id).value := r.value])
      ensures NamesDistinct(old(departments.rows)) ==> NamesDistinct(departments.rows)
    {
      if NameTaken(departments.rows, department.name) {
        return Failure(DuplicateDepartmentName(department.name));
      }
      ghost var before := departments.rows;
      ghost var k := DepartmentRow(departments.rows, department.id);
      var stored := departments.Save(department);
      r := Success(stored);
      if k.None? {
        NamesStayDistinctAppend(before, stored);
      } else {
        NamesStayDistinctAt(before, k.value, stored);
      }
    }

    /** `updateDepartment`: not-found for an absent id; a rename to a name another
        department has is rejected before anything is saved; otherwise the name,
        description and manager are taken from `details`, the id is kept, and the
        count recomputed under the old name by the lookup is saved with it. */
    method UpdateDepartment(id: int, details: Department) returns (r: Result<Department, Fault>)
      requires departments.Valid()
      modifies departments
      ensures departments.Valid()
      ensures employees.rows == old(employees.rows)
      ensures !StoredDepartment(old(departments.rows), id) ==>
        r == Failure(DepartmentNotFound(id)) && departments.rows == old(departments.rows)
      ensures StoredDepartment(old(departments.rows), id) ==>
        var k := IndexWhere(old(departments.rows), DepartmentWithId(id)).value;
        var before := old(departments.rows)[k];
        && (before.name != details.name && NameTaken(old(departments.rows), details.name) ==>
              r == Failure(DuplicateDepartmentName(details.name)) && departments.rows == old(departments.rows))
        && (before.name == details.name || !NameTaken(old(departments.rows), details.name) ==>
              && r.Success?
              && r.value.id == Some(id)
              && r.value.name == details.name
              && r.value.description == details.description
              && r.value.manager == details.manager
              && r.value.employeeCount == EmployeeCount(old(employees.rows), before.name)
              && departments.rows == old(departments.rows)[k := r.value])
      ensures NamesDistinct(old(departments.rows)) ==> NamesDistinct(departments.rows)
    {
      var found := GetDepartmentById(id);
      if found.Failure? {
        return Failure(found.error);
      }
      ghost var before := departments.rows;
      ghost var k := IndexWhere(departments.rows, DepartmentWithId(id)).value;
      DistinctDepartmentIdsPinRow(departments.rows, id, k);
      var department := found.value;
      if department.name != details.name {
        if NameTaken(departments.rows, details.name) {
          return Failure(DuplicateDepartmentName(details.name));
        }
        department := department.(name := details.name);
      }
      department := department.(description := details.description);
      department := department.(manager := details.manager);

      assert DepartmentRow(before, department.id) == Some(k);
      var stored := departments.Save(department);
      r := Success(stored);
      NamesStayDistinctAt(before, k, stored);
    }

    /** `deleteDepartment`: not-found for an absent id; otherwise exactly that
        department goes, and no employee row changes (their department strings stay). */
    method DeleteDepartment(id: int) returns (r: Result<(), Fault>)
      requires departments.Valid()
      modifies departments
      ensures departments.Valid()
      ensures employees.rows == old(employees.rows)
      ensures !StoredDepartment(old(departments.rows), id) ==>
        r == Failure(DepartmentNotFound(id)) && departments.rows == old(departments.rows)
      ensures StoredDepartment(old(departments.rows), id) ==>
        var k := IndexWhere(old(departments.rows), DepartmentWithId(id)).value;
        && r.Success?
        && departments.rows == old(departments.rows)[..k] + old(departments.rows)[k + 1..]
        && (forall d :: d in departments.rows ==> d.id != Some(id))
    {
      var found := GetDepartmentById(id);
      if found.Failure? {
        return Failure(found.error);
      }
      var k := IndexWhere(departments.rows, DepartmentWithId(id)).value;
      DistinctDepartmentIdsPinRow(departments.rows, id, k);
      departments.Delete(found.value.id.value);
      r := Success(());
    }
  }

  lemma DistinctDepartmentIdsPinRow(rows: seq<Department>, id: int, k: nat)
    requires DistinctDepartmentIds(rows)
    requires k < |rows| && rows[k].id == Some(id)
    ensures IndexWhere(rows, DepartmentWithId(id)) == Some(k)
    ensures forall i :: 0 <= i < |rows| && i != k ==> rows[i].id != Some(id)
  {
    assert DepartmentWithId(id)(rows[k]);
  }

  lemma NamesStayDistinctAppend(before: seq<Department>, d: Department)
    requires !NameTaken(before, d.name)
    ensures NamesDistinct(before) ==> NamesDistinct(before + [d])
  {
  }

  lemma NamesStayDistinctAt(before: seq<Department>, k: nat, d: Department)
    requires k < |before|
    requires d.name == before[k].name || !NameTaken(before, d.name)
    ensures NamesDistinct(before) ==> NamesDistinct(before[k := d])
  {
  }

  lemma NameTakenCons(departments: seq<Department>, name: string)
    requires departments != []
    ensures NameTaken(departments, name) <==> departments[0].name == name || NameTaken(departments[1..], name)
  {
    if NameTaken(departments[1..], name) {
      var i :| 0 <= i < |departments[1..]| && departments[1..][i].name == name;
      assert departments[i + 1].name == name;
    }
  }

  /** With distinct names, the recomputed counts add up to the number of employees whose
      department string names an existing department: nobody is counted twice, and an
      employee left with the name of a deleted or renamed department is counted nowhere. */
  lemma {:induction false} CountsCoverNamedStaff(departments: seq<Department>, employees: seq<Employee>)
    requires NamesDistinct(departments)
    ensures CountSum(WithCounts(departments, employees)) == |Filter(employees, WorksInOneOf(departments))|
    ensures CountSum(WithCounts(departments, employees)) <= |employees|
    decreases |departments|
  {
    if departments == [] {
      FilterKeepsNone(employees, WorksInOneOf(departments));
    } else {
      var d := departments[0];
      var rest := departments[1..];
      assert NamesDistinct(rest) by {
        forall i, j | 0 <= i < j < |rest| ensures rest[i].name != rest[j].name {
          assert rest[i] == departments[i + 1] && rest[j] == departments[j + 1];
        }
      }
      CountsCoverNamedStaff(rest, employees);
      assert WithCounts(departments, employees)[1..] == WithCounts(rest, employees);
      forall i | 0 <= i < |employees|
        ensures WorksInOneOf(departments)(employees[i])
            <==> InDepartment(d.name)(employees[i]) || WorksInOneOf(rest)(employees[i])
        ensures !(InDepartment(d.name)(employees[i]) && WorksInOneOf(rest)(employees[i]))
      {
        NameTakenCons(departments, employees[i].department);
        if NameTaken(rest, employees[i].department) {
          var j :| 0 <= j < |rest| && rest[j].name == employees[i].department;
          assert departments[j + 1] == rest[j];
        }
      }
      FilterDisjointCount(employees, InDepartment(d.name), WorksInOneOf(rest), WorksInOneOf(departments));
    }
  }
}

/** The two Spring Data repositories, each a table of rows in insertion order with an
    identity counter, and the derived queries the services call on them. */
module Repositories {
  import opened Wrappers
  import opened Seqs
  import opened Entities

  ghost predicate DistinctEmployeeIds(rows: seq<Employee>)
  {
    forall i, j :: 0 <= i < j < |rows| ==> rows[i].id != rows[j].id
  }

  ghost predicate DistinctDepartmentIds(rows: seq<Department>)
  {
    forall i, j :: 0 <= i < j < |rows| ==> rows[i].id != rows[j].id
  }

  /** The uniqueness the `email` column promises. */
  ghost predicate EmailsDistinct(rows: seq<Employee>)
  {
    forall i, j :: 0 <= i < j < |rows| ==> rows[i].email != rows[j].email
  }

  /** The uniqueness the department `name` column promises. */
  ghost predicate NamesDistinct(rows: seq<Department>)
  {
    forall i, j :: 0 <= i < j < |rows| ==> rows[i].name != rows[j].name
  }

  /** `existsByEmail`. */
  predicate EmailTaken(rows: seq<Employee>, email: string)
  {
    exists i :: 0 <= i < |rows| && rows[i].email == email
  }

  /** `existsByName`. */
  predicate NameTaken(rows: seq<Department>, name: string)
  {
    exists i :: 0 <= i < |rows| && rows[i].name == name
  }

  /** `findByDepartment`: the rows whose denormalised department string is `department`. */
  function FindByDepartment(rows: seq<Employee>, department: string): seq<Employee>
  {
    Filter(rows, InDepartment(department))
  }

  /** `findByStatus`. */
  function FindByStatus(rows: seq<Employee>, status: string): seq<Employee>
  {
    Filter(rows, WithStatus(status))
  }

  /** The derived query `findByFirstNameContainingOrLastNameContaining(k, k)`. */
  function NameContains(keyword: string): Employee -> bool
  {
    (e: Employee) => Contains(e.firstName, keyword) || Contains(e.lastName, keyword)
  }

  /** The position of the stored row a possibly-null id designates. */
  function EmployeeRow(rows: seq<Employee>, id: Option<int>): Option<nat>
  {
    if id.None? then None else IndexWhere(rows, EmployeeWithId(id.value))
  }

  function DepartmentRow(rows: seq<Department>, id: Option<int>): Option<nat>
  {
    if id.None? then None else IndexWhere(rows, DepartmentWithId(id.value))
  }

  /** The employee table. Rows keep insertion order; `nextId` is the identity column's next value. */
  class EmployeeRepository {
    var rows: seq<Employee>
    var nextId: int

    ghost predicate Valid()
      reads this
    {
      && 1 <= nextId
      && (forall i :: 0 <= i < |rows| ==> rows[i].id.Some? && 1 <= rows[i].id.value < nextId)
      && DistinctEmployeeIds(rows)
    }

    constructor ()
      ensures Valid() && rows == []
    {
      rows, nextId := [], 1;
    }

    /** `save`: an entity whose id designates no stored row is inserted under a fresh
        identity after `onCreate`; otherwise `onUpdate` runs and the row is overwritten,
        except for `createdAt`, which is not updatable. Returns the row as stored. */
    method Save(entity: EmployeeEntity, today: int) returns (stored: Employee)
      requires Valid()
      modifies this, entity
      ensures Valid()
      ensures old(EmployeeRow(rows, entity.id)).None? ==>
        && stored == old(entity.Record()).(id := Some(old(nextId)), createdAt := Some(today),
                                           updatedAt := Some(today), status := entity.status)
        && (old(entity.status).None? ==> stored.status == Some(ActiveStatus))
        && (old(entity.status).Some? ==> stored.status == old(entity.status))
        && rows == old(rows) + [stored]
        && entity.Record() == stored
      ensures old(EmployeeRow(rows, entity.id)).Some? ==>
        var k := old(EmployeeRow(rows, entity.id)).value;
        && k < |old(rows)|
        && entity.Record() == old(entity.Record()).(updatedAt := Some(today))
        && stored == entity.Record().(createdAt := old(rows[k].createdAt))
        && rows == old(rows)[k := stored]
    {
      var k := EmployeeRow(rows, entity.id);
      if k.None? {
        entity.id := Some(nextId);
        nextId := nextId + 1;
        entity.OnCreate(today);
        stored := entity.Record();
        rows := rows + [stored];
      } else {
        entity.OnUpdate(today);
        stored := entity.Record().(createdAt := rows[k.value].createdAt);
        rows := rows[k.value := stored];
      }
    }

    /** `delete`: removes the row with that id, if there is one; the others keep their order. */
    method Delete(id: int)
      requires Valid()
      modifies this
      ensures Valid() && nextId == old(nextId)
      ensures var k := IndexWhere(old(rows), EmployeeWithId(id));
        rows == if k.None? then old(rows) else old(rows[..k.value] + rows[k.value + 1..])
    {
      var k := IndexWhere(rows, EmployeeWithId(id));
      if k.Some? {
        rows := rows[..k.value] + rows[k.value + 1..];
      }
    }
  }

  /** The department table. */
  class DepartmentRepository {
    var rows: seq<Department>
    var nextId: int

    ghost predicate Valid()
      reads this
    {
      && 1 <= nextId
      && (forall i :: 0 <= i < |rows| ==> rows[i].id.Some? && 1 <= rows[i].id.value < nextId)
      && DistinctDepartmentIds(rows)
    }

    constructor ()
      ensures Valid() && rows == []
    {
      rows, nextId := [], 1;
    }

    /** `save`: inserted under a fresh identity when its id designates no stored row,
        otherwise the stored row is overwritten. Returns the row as stored. */
    method Save(department: Department) returns (stored: Department)
      requires Valid()
      modifies this
      ensures Valid()
      ensures DepartmentRow(old(rows), department.id).None? ==>
        && stored == department.(id := Some(old(nextId)))
        && rows == old(rows) + [stored]
      ensures DepartmentRow(old(rows), department.id).Some? ==>
        var k := DepartmentRow(old(rows), department.id).value;
        && stored == department
        && rows == old(rows)[k := stored]
    {
      var k := DepartmentRow(rows, department.id);
      if k.None? {
        stored := department.(id := Some(nextId));
        nextId := nextId + 1;
        rows := rows + [stored];
      } else {
        stored := department;
        rows := rows[k.value := stored];
      }
    }

    /** `delete`: removes the row with that id, if there is one; the others keep their order. */
    method Delete(id: int)
      requires Valid()
      modifies this
      ensures Valid() && nextId == old(nextId)
      ensures var k := IndexWhere(old(rows), DepartmentWithId(id));
        rows == if k.None? then old(rows) else old(rows[..k.value] + rows[k.value + 1..])
    {
      var k := IndexWhere(rows, DepartmentWithId(id));
      if k.Some? {
        rows := rows[..k.value] + rows[k.value + 1..];
      }
    }
  }
}

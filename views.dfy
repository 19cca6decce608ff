/** The views the browser derives from its employee and department snapshots: the
    dropdown filter, the keyword search, the dashboard counts, the first-five panels
    and the department option list. */
module Views {
  import opened Wrappers
  import opened Seqs
  import opened Entities

  /** `toLowerCase` on one character (ASCII letters only). */
  function LowerChar(c: char): char
  {
    if 'A' <= c <= 'Z' then (c as int + 32) as char else c
  }

  /** `toLowerCase`: same length, no ASCII capital left, every other character kept. */
  function Lower(s: string): (r: string)
    ensures |r| == |s|
    ensures forall i :: 0 <= i < |s| ==> r[i] == LowerChar(s[i])
    ensures forall i :: 0 <= i < |r| ==> !('A' <= r[i] <= 'Z')
    ensures forall i :: 0 <= i < |s| && !('A' <= s[i] <= 'Z') ==> r[i] == s[i]
  {
    seq(|s|, i requires 0 <= i < |s| => LowerChar(s[i]))
  }

  /** Lower-casing twice is lower-casing once. */
  lemma LowerIdempotent(s: string)
    ensures Lower(Lower(s)) == Lower(s)
  {
  }

  // ----- filterEmployees -----

  /** Whether an employee passes the two dropdowns; an empty value imposes nothing. */
  predicate PassesFilters(e: Employee, department: string, status: string)
  {
    (department == "" || e.department == department) && (status == "" || e.status == Some(status))
  }

  /** `filterEmployees`: the department filter, then the status filter, each only when set. */
  function FilterEmployees(employees: seq<Employee>, department: string, status: string): (r: seq<Employee>)
    ensures IsSubsequence(r, employees)
    ensures forall i :: 0 <= i < |r| ==> PassesFilters(r[i], department, status)
    ensures forall i :: 0 <= i < |employees| && PassesFilters(employees[i], department, status) ==> employees[i] in r
    ensures department == "" && status == "" ==> r == employees
    ensures forall x :: multiset(r)[x] == if PassesFilters(x, department, status) then multiset(employees)[x] else 0
  {
    var byDepartment := if department != "" then Filter(employees, InDepartment(department)) else employees;
    var r := if status != "" then Filter(byDepartment, WithStatus(status)) else byDepartment;
    SubsequenceReflexive(employees);
    SubsequenceReflexive(byDepartment);
    SubsequenceTransitive(r, byDepartment, employees);
    DropdownCounts(employees, department, status);
    r
  }

  /** The two dropdown filters, applied in turn, keep each passing employee as many
      times as the snapshot holds it. */
  lemma DropdownCounts(employees: seq<Employee>, department: string, status: string)
    ensures var byDepartment := if department != "" then Filter(employees, InDepartment(department)) else employees;
            var r := if status != "" then Filter(byDepartment, WithStatus(status)) else byDepartment;
            forall x :: multiset(r)[x] == if PassesFilters(x, department, status) then multiset(employees)[x] else 0
  {
    var byDepartment := if department != "" then Filter(employees, InDepartment(department)) else employees;
    FilterCounts(employees, InDepartment(department));
    FilterCounts(byDepartment, WithStatus(status));
  }

  /** With both dropdowns set, the result is the same whichever filter runs first, and
      holds exactly the employees in both single-filter results. */
  lemma FilterIsIntersection(employees: seq<Employee>, department: string, status: string)
    requires department != "" && status != ""
    ensures FilterEmployees(employees, department, status)
         == FilterEmployees(FilterEmployees(employees, "", status), department, "")
    ensures forall e :: (e in FilterEmployees(employees, department, status)
                     <==> e in FilterEmployees(employees, department, "") && e in FilterEmployees(employees, "", status))
  {
    FilterCommutes(employees, InDepartment(department), WithStatus(status));
  }

  // ----- handleGlobalSearch -----

  /** The lower-cased keyword occurs in one of the five searched fields. */
  predicate SearchHit(e: Employee, keyword: string)
  {
    || Contains(Lower(e.firstName), keyword)
    || Contains(Lower(e.lastName), keyword)
    || Contains(Lower(e.email), keyword)
    || Contains(Lower(e.department), keyword)
    || Contains(Lower(e.position), keyword)
  }

  function Hits(keyword: string): Employee -> bool
  {
    (e: Employee) => SearchHit(e, keyword)
  }

  /** `handleGlobalSearch`: the whole snapshot for an empty input, otherwise the employees
      with a case-insensitive hit, in snapshot order. */
  function SearchEmployees(employees: seq<Employee>, input: string): (r: seq<Employee>)
    ensures input == "" ==> r == employees
    ensures IsSubsequence(r, employees)
    ensures input != "" ==> forall i :: 0 <= i < |r| ==> SearchHit(r[i], Lower(input))
    ensures input != "" ==> forall i :: 0 <= i < |employees| && SearchHit(employees[i], Lower(input)) ==> employees[i] in r
    ensures input != "" ==> forall x :: multiset(r)[x] == if SearchHit(x, Lower(input)) then multiset(employees)[x] else 0
  {
    var keyword := Lower(input);
    if keyword == "" then
      SubsequenceReflexive(employees);
      employees
    else
      FilterCounts(employees, Hits(keyword));
      Filter(employees, Hits(keyword))
  }

  /** Inputs that lower-case alike search alike; in particular an input searches as its
      own lower-cased form does. */
  lemma SearchIgnoresCase(employees: seq<Employee>, a: string, b: string)
    requires Lower(a) == Lower(b)
    ensures SearchEmployees(employees, a) == SearchEmployees(employees, b)
    ensures SearchEmployees(employees, a) == SearchEmployees(employees, Lower(a))
  {
    LowerIdempotent(a);
  }

  /** The two records differ at most in the fields the search does not read. */
  predicate SameExceptContact(a: Employee, b: Employee)
  {
    && a.id == b.id && a.firstName == b.firstName && a.lastName == b.lastName
    && a.email == b.email && a.department == b.department && a.position == b.position
    && a.salary == b.salary && a.hireDate == b.hireDate && a.status == b.status
    && a.createdAt == b.createdAt && a.updatedAt == b.updatedAt
  }

  /** Phone and address are never searched: snapshots that differ only there give
      results that differ only there, position by position. */
  lemma {:induction false} SearchIgnoresPhoneAndAddress(s: seq<Employee>, t: seq<Employee>, input: string)
    requires |s| == |t|
    requires forall i :: 0 <= i < |s| ==> SameExceptContact(s[i], t[i])
    ensures |SearchEmployees(s, input)| == |SearchEmployees(t, input)|
    ensures forall j :: 0 <= j < |SearchEmployees(s, input)| ==>
      SameExceptContact(SearchEmployees(s, input)[j], SearchEmployees(t, input)[j])
  {
    var keyword := Lower(input);
    if keyword != "" {
      forall i | 0 <= i < |s|
        ensures SameExceptContact(s[i], t[i]) && Hits(keyword)(s[i]) == Hits(keyword)(t[i])
      {
      }
      FilterRelated(s, t, Hits(keyword), (a: Employee, b: Employee) => SameExceptContact(a, b));
    }
  }

  // ----- updateDashboardStats -----

  datatype DashboardStats = DashboardStats(totalEmployees: nat, activeEmployees: nat, totalDepartments: nat, newHires: nat)

  /** The width, in days, of the new-hire window. */
  const NewHireWindowDays: int := 30

  /** Hired on or after the day thirty days before `today`; no upper bound. */
  function HiredSince(today: int): Employee -> bool
  {
    (e: Employee) => e.hireDate >= today - NewHireWindowDays
  }

  /** `updateDashboardStats`: the four numbers on the dashboard, from both snapshots. */
  function Dashboard(employees: seq<Employee>, departments: seq<Department>, today: int): (r: DashboardStats)
    ensures r.totalEmployees == |employees| && r.totalDepartments == |departments|
    ensures r.activeEmployees <= r.totalEmployees && r.newHires <= r.totalEmployees
  {
    DashboardStats(|employees|, |Filter(employees, WithStatus(ActiveStatus))|, |departments|,
                   |Filter(employees, HiredSince(today))|)
  }

  /** One more employee adds one to the total, and one to the active count and to the
      new hires exactly when it is active or hired at most thirty days before today
      (or on any later day). */
  lemma DashboardAppend(employees: seq<Employee>, departments: seq<Department>, e: Employee, today: int)
    ensures var before := Dashboard(employees, departments, today);
      var after := Dashboard(employees + [e], departments, today);
      && after.totalEmployees == before.totalEmployees + 1
      && after.activeEmployees == before.activeEmployees + (if e.status == Some(ActiveStatus) then 1 else 0)
      && after.newHires == before.newHires + (if HiredSince(today)(e) then 1 else 0)
      && after.totalDepartments == before.totalDepartments
  {
    FilterAppend(employees, [e], WithStatus(ActiveStatus));
    FilterAppend(employees, [e], HiredSince(today));
  }

  /** The active count equals the total exactly when every employee is "Active". */
  lemma AllActiveExactly(employees: seq<Employee>, departments: seq<Department>, today: int)
    ensures Dashboard(employees, departments, today).activeEmployees == |employees|
        <==> forall i :: 0 <= i < |employees| ==> employees[i].status == Some(ActiveStatus)
  {
    if Dashboard(employees, departments, today).activeEmployees == |employees| {
      FilterKeepsAllOnlyIfAll(employees, WithStatus(ActiveStatus));
    }
    if forall i :: 0 <= i < |employees| ==> employees[i].status == Some(ActiveStatus) {
      FilterKeepsAll(employees, WithStatus(ActiveStatus));
    }
  }

  /** As days pass the new-hire count can only fall. */
  lemma NewHiresShrinkOverTime(employees: seq<Employee>, departments: seq<Department>, today: int, later: int)
    requires today <= later
    ensures Dashboard(employees, departments, later).newHires <= Dashboard(employees, departments, today).newHires
  {
    FilterLengthMonotone(employees, HiredSince(later), HiredSince(today));
  }

  // ----- displayRecentEmployees, displayDepartmentOverview -----

  /** How many entries each dashboard panel shows. */
  const PanelSize: nat := 5

  /** `slice(0, 5)`: the first five in snapshot order, no sort. Both panels, the recent
      employees and the department overview, draw this prefix of their snapshot. */
  function FirstFive<T>(s: seq<T>): (r: seq<T>)
    ensures |r| == Min(PanelSize, |s|)
    ensures forall i :: 0 <= i < |r| ==> r[i] == s[i]
  {
    s[..Min(PanelSize, |s|)]
  }

  // ----- populateDepartmentFilters -----

  /** The option values of both department dropdowns: "" (all / none selected), then
      each department's name in snapshot order. */
  function DepartmentOptions(departments: seq<Department>): (r: seq<string>)
    ensures |r| == |departments| + 1 && r[0] == ""
    ensures forall i :: 0 <= i < |departments| ==> r[i + 1] == departments[i].name
  {
    [""] + seq(|departments|, i requires 0 <= i < |departments| => departments[i].name)
  }

  /** Picking the first option filters nothing by department; picking option `i + 1`
      keeps exactly the employees of department `i`. */
  lemma OptionsDriveFilter(employees: seq<Employee>, departments: seq<Department>, i: nat, status: string)
    requires i < |departments| && departments[i].name != ""
    ensures FilterEmployees(employees, DepartmentOptions(departments)[0], status)
         == FilterEmployees(employees, "", status)
    ensures forall e :: (e in FilterEmployees(employees, DepartmentOptions(departments)[i + 1], "")
                     <==> e in employees && e.department == departments[i].name)
  {
  }
}

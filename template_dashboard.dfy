/** The department dashboard template: its six-week calendar grid, the
    "template" department's slices of the shared lists, and the day's present
    count and attendance rate. Employee ids are matched with `===` against
    the first employee carrying that id, as `employees.find` does. */
module TemplateDashboard {
  import opened Js
  import Seqs
  import Calendar

  // ---- calendar grid ----

  /** `firstDay` moved back by its `getDay()`: the Sunday on or before the 1st. */
  function GridStart(year: int, month: int): (d: int)
    requires 0 <= month < 12
    ensures Calendar.Weekday(d) == 0
    ensures 0 <= Calendar.FirstOfJsMonth(year, month) - d < 7
  {
    var first := Calendar.FirstOfJsMonth(year, month);
    Calendar.SundayOnOrBefore(first);
    first - Calendar.Weekday(first)
  }

  /** `new Date(year, month + 1, 0)`: the last day of the month. */
  function LastDay(year: int, month: int): int
    requires 0 <= month < 12
  {
    Calendar.FirstOfJsMonth(year, month) + Calendar.DaysInJsMonth(year, month) - 1
  }

  /** `getCalendarDays`: consecutive days from the grid's Sunday, pushed while a
      day lies on or before the last of the month or the week is unfinished,
      and never more than 42. The grid therefore ends on the Saturday of the
      week holding the month's last day. Days are day numbers. */
  method CalendarDays(year: int, month: int) returns (days: seq<int>)
    requires 0 <= month < 12
    ensures 0 < |days| <= 42 && |days| % 7 == 0
    ensures days[0] == GridStart(year, month) && Calendar.Weekday(days[0]) == 0
    ensures forall i :: 0 <= i < |days| ==> days[i] == GridStart(year, month) + i
    ensures forall d :: Calendar.FirstOfJsMonth(year, month) <= d <= LastDay(year, month) ==> d in days
    ensures days[|days| - 1] >= LastDay(year, month)
    ensures days[|days| - 1] < LastDay(year, month) + 7
    ensures |days| == 7 * ((LastDay(year, month) - GridStart(year, month)) / 7 + 1)
  {
    var start := GridStart(year, month);
    var last := LastDay(year, month);
    assert last - start <= 36;
    days := [];
    var current := start;
    while current <= last || Calendar.Weekday(current) != 0
      invariant |days| < 42
      invariant current == start + |days|
      invariant forall i :: 0 <= i < |days| ==> days[i] == start + i
      invariant |days| % 7 == 0 <==> Calendar.Weekday(current) == 0
      invariant |days| <= 7 * ((last - start) / 7 + 1)
      decreases 42 - |days|
    {
      days := days + [current];
      current := current + 1;
      Calendar.WeekdayAdvance(start, |days|);
      if |days| >= 42 {
        break;
      }
    }
    Calendar.WeekdayAdvance(start, |days|);
    assert days[0] == start;
    forall d | Calendar.FirstOfJsMonth(year, month) <= d <= last
      ensures d in days
    {
      assert days[d - start] == d;
    }
  }

  // ---- department slices ----

  /** What the filters read of an employee. */
  datatype Member = Member(id: Val, department: Val)

  /** What the filters read of an issue. */
  datatype IssueTag = IssueTag(assignedTo: Val, department: Val)

  /** What the day's figures read of an attendance record. */
  datatype Mark = Mark(employeeId: Val, date: string, status: string)

  const Department: Val := Str("template")

  predicate InDepartment(e: Member) {
    StrictEq(e.department, Department)
  }

  /** `employees.find(emp => emp.id === employeeId)` exists and is in the department. */
  predicate InTemplate(employees: seq<Member>, employeeId: Val) {
    var k := Seqs.FindIndex(employees, (e: Member) => StrictEq(e.id, employeeId));
    k >= 0 && InDepartment(employees[k])
  }

  /** No two employees share an id under `===`. */
  predicate UniqueIds(employees: seq<Member>) {
    forall i, j :: 0 <= i < j < |employees| ==> !StrictEq(employees[i].id, employees[j].id)
  }

  /** With unique ids, a record belongs to the department exactly when some
      department employee carries its employee id. */
  lemma InTemplateIffSomeMember(employees: seq<Member>, employeeId: Val)
    requires UniqueIds(employees)
    ensures InTemplate(employees, employeeId) <==>
      exists k :: 0 <= k < |employees| && StrictEq(employees[k].id, employeeId) && InDepartment(employees[k])
  {
    var k := Seqs.FindIndex(employees, (e: Member) => StrictEq(e.id, employeeId));
    if j :| 0 <= j < |employees| && StrictEq(employees[j].id, employeeId) && InDepartment(employees[j]) {
      assert k >= 0;
    }
  }

  /** `departmentEmployees`. */
  function DepartmentEmployees(employees: seq<Member>): (r: seq<Member>)
    ensures forall i :: 0 <= i < |r| ==> r[i] in employees && InDepartment(r[i])
    ensures forall i :: 0 <= i < |employees| && InDepartment(employees[i]) ==> employees[i] in r
  {
    Seqs.Filter(employees, InDepartment)
  }

  /** `departmentTasks` and `departmentLeaveRequests`: the items whose employee
      is in the department, for any item kind with an employee id. */
  function DepartmentItems<T>(employees: seq<Member>, items: seq<T>, employeeIdOf: T -> Val): (r: seq<T>)
    ensures forall i :: 0 <= i < |r| ==> r[i] in items && InTemplate(employees, employeeIdOf(r[i]))
    ensures forall i :: 0 <= i < |items| && InTemplate(employees, employeeIdOf(items[i])) ==> items[i] in r
  {
    Seqs.Filter(items, (x: T) => InTemplate(employees, employeeIdOf(x)))
  }

  predicate TaggedTemplate(i: IssueTag) {
    StrictEq(i.assignedTo, Department) || StrictEq(i.department, Department)
  }

  /** `departmentIssues`. */
  function DepartmentIssues(issues: seq<IssueTag>): (r: seq<IssueTag>)
    ensures |r| <= |issues|
  {
    Seqs.Filter(issues, TaggedTemplate)
  }

  /** An issue is listed exactly when it is one of the issues and is assigned
      to, or filed under, the department. */
  lemma DepartmentIssuesMembership(issues: seq<IssueTag>, i: IssueTag)
    ensures i in DepartmentIssues(issues) <==>
      i in issues && (i.assignedTo == Department || i.department == Department)
  {
    var r := DepartmentIssues(issues);
    if i in issues && TaggedTemplate(i) {
      var k :| 0 <= k < |issues| && issues[k] == i;
      assert TaggedTemplate(issues[k]);
    }
    if i in r {
      var k :| 0 <= k < |r| && r[k] == i;
      assert TaggedTemplate(r[k]);
    }
  }

  // ---- the day's figures ----

  /** A `todayAttendance` record: a department employee's, dated `selectedDate`. */
  predicate Today(employees: seq<Member>, selectedDate: string, a: Mark) {
    InTemplate(employees, a.employeeId) && a.date == selectedDate
  }

  function TodayAttendance(employees: seq<Member>, attendance: seq<Mark>, selectedDate: string): (r: seq<Mark>)
    ensures forall i :: 0 <= i < |r| ==> r[i] in attendance && Today(employees, selectedDate, r[i])
    ensures forall i :: 0 <= i < |attendance| && Today(employees, selectedDate, attendance[i]) ==> attendance[i] in r
  {
    Seqs.Filter(attendance, (a: Mark) => Today(employees, selectedDate, a))
  }

  predicate IsPresent(a: Mark) {
    a.status == "Present" || a.status == "WFH"
  }

  /** `presentCount`. */
  function PresentCount(employees: seq<Member>, attendance: seq<Mark>, selectedDate: string): (n: nat)
    ensures n <= |TodayAttendance(employees, attendance, selectedDate)|
  {
    Seqs.Count(TodayAttendance(employees, attendance, selectedDate), IsPresent)
  }

  predicate PresentToday(employees: seq<Member>, selectedDate: string, a: Mark) {
    Today(employees, selectedDate, a) && IsPresent(a)
  }

  /** The present count is the number of records, among all of them, that a
      department employee has for the selected date with status Present or WFH. */
  lemma {:induction false} PresentCountIsOnePass(employees: seq<Member>, attendance: seq<Mark>, selectedDate: string)
    ensures PresentCount(employees, attendance, selectedDate) ==
      Seqs.Count(attendance, (a: Mark) => PresentToday(employees, selectedDate, a))
  {
    var today := (a: Mark) => Today(employees, selectedDate, a);
    var both := (a: Mark) => PresentToday(employees, selectedDate, a);
    Seqs.FilterTwice(attendance, today, IsPresent, both);
  }


  /** `((part / whole) * 100).toFixed(1)`, in tenths of a percent rounded
      to the nearest, halves up; 0 when `whole` is 0. */
  function RateTenths(part: nat, whole: nat): (r: nat)
    ensures whole == 0 ==> r == 0
    ensures whole > 0 ==> 2 * whole * r <= 2000 * part + whole < 2 * whole * (r + 1)
    ensures part <= whole ==> r <= 1000
  {
    if whole == 0 then 0
    else
      RoundHalfUpAtMost(1000 * part, whole, 1000);
      RoundHalfUp(1000 * part, whole)
  }

  /** `attendanceRate`, in tenths of a percent. */
  function AttendanceRate(employees: seq<Member>, attendance: seq<Mark>, selectedDate: string): (r: nat)
    ensures DepartmentEmployees(employees) == [] ==> r == 0
    ensures var total := |DepartmentEmployees(employees)|;
      var present := PresentCount(employees, attendance, selectedDate);
      total > 0 ==> 2 * total * r <= 2000 * present + total < 2 * total * (r + 1)
  {
    RateTenths(PresentCount(employees, attendance, selectedDate), |DepartmentEmployees(employees)|)
  }
}

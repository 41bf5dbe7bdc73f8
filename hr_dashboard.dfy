/** The HR dashboard's computations: the month grid of the holiday calendar,
    the custom holiday list, and the monthly attendance and leave summaries.
    Dates in the summaries are the "YYYY-MM-DD" strings the server sends,
    compared as strings, as the code does. */
module HrDashboard {
  import opened Maybe
  import opened Js
  import Text
  import Seqs
  import Calendar
  import Employees

  // ---- calendar grid ----

  /** `firstDay.getDay()`: the column of the 1st. `month` is 0-based, as `getMonth()` answers. */
  function StartColumn(year: int, month: int): (c: int)
    requires 0 <= month < 12
    ensures 0 <= c < 7
  {
    Calendar.Weekday(Calendar.FirstOfJsMonth(year, month))
  }

  /** `getCalendarDays`: `startingDayOfWeek` empty cells, then the days 1..daysInMonth. */
  method CalendarDays(year: int, month: int) returns (days: seq<Option<int>>)
    requires 0 <= month < 12
    ensures |days| == StartColumn(year, month) + Calendar.DaysInJsMonth(year, month)
    ensures forall i :: 0 <= i < StartColumn(year, month) ==> days[i] == None
    ensures forall d :: 1 <= d <= Calendar.DaysInJsMonth(year, month) ==> days[StartColumn(year, month) + d - 1] == Some(d)
  {
    var start := StartColumn(year, month);
    var daysInMonth := Calendar.DaysInJsMonth(year, month);
    days := [];
    for i := 0 to start
      invariant |days| == i
      invariant forall j :: 0 <= j < i ==> days[j] == None
    {
      days := days + [None];
    }
    for day := 1 to daysInMonth + 1
      invariant |days| == start + day - 1
      invariant forall j :: 0 <= j < start ==> days[j] == None
      invariant forall d :: 1 <= d < day ==> days[start + d - 1] == Some(d)
    {
      days := days + [Some(day)];
    }
  }

  /** In the grid, day `d` sits in the column of its weekday, Sundays in column 0. */
  lemma DayColumnIsWeekday(year: int, month: int, d: int)
    requires 0 <= month < 12
    ensures (StartColumn(year, month) + d - 1) % 7 == Calendar.Weekday(Calendar.FirstOfJsMonth(year, month) + d - 1)
  {
    Calendar.WeekdayAdvance(Calendar.FirstOfJsMonth(year, month), d - 1);
  }

  // ---- holidays ----

  datatype Holiday = Holiday(date: string, name: string)

  /** `addHoliday`: appends the entry as typed when it has a date and a non-blank name. */
  function AddHoliday(holidays: seq<Holiday>, h: Holiday): (r: seq<Holiday>)
    ensures h.date != "" && Text.Trim(h.name) != "" ==> r == holidays + [h]
    ensures h.date == "" || Text.Trim(h.name) == "" ==> r == holidays
  {
    if h.date != "" && Text.Trim(h.name) != "" then holidays + [h] else holidays
  }

  /** `removeHoliday`: keeps every entry that differs in date or name. */
  function RemoveHoliday(holidays: seq<Holiday>, h: Holiday): (r: seq<Holiday>)
    ensures forall i :: 0 <= i < |r| ==> r[i] != h && r[i] in holidays
    ensures forall i :: 0 <= i < |holidays| && holidays[i] != h ==> holidays[i] in r
  {
    Seqs.Filter(holidays, (x: Holiday) => x.date != h.date || x.name != h.name)
  }

  /** Removing works entry by entry: a list split in two loses its matching
      entries from each half, and a single entry is dropped exactly when it matches. */
  lemma RemoveKeepsOrder(a: seq<Holiday>, b: seq<Holiday>, h: Holiday)
    ensures RemoveHoliday(a + b, h) == RemoveHoliday(a, h) + RemoveHoliday(b, h)
    ensures forall x :: RemoveHoliday([x], h) == if x == h then [] else [x]
  {
    Seqs.FilterAppend(a, b, (x: Holiday) => x.date != h.date || x.name != h.name);
  }

  /** Removing keeps the other entries in order, and removing what was just
      added undoes the addition, along with every earlier copy of it. */
  lemma RemoveUndoesAdd(holidays: seq<Holiday>, h: Holiday)
    ensures RemoveHoliday(AddHoliday(holidays, h), h) == RemoveHoliday(holidays, h)
    ensures (forall i :: 0 <= i < |holidays| ==> holidays[i] != h) ==> RemoveHoliday(holidays, h) == holidays
  {
    var p := (x: Holiday) => x.date != h.date || x.name != h.name;
    Seqs.FilterAppend(holidays, [h], p);
    assert Seqs.Filter([h], p) == [];
    if forall i :: 0 <= i < |holidays| ==> holidays[i] != h {
      Seqs.FilterAll(holidays, p);
    }
  }

  // ---- monthly summaries ----

  /** `monthStart <= date && date <= monthEnd` on strings. */
  predicate InWindow(date: string, monthStart: string, monthEnd: string) {
    Text.LexLeq(monthStart, date) && Text.LexLeq(date, monthEnd)
  }

  function MonthStart(summaryMonth: string): string { summaryMonth + "-01" }
  function MonthEnd(summaryMonth: string): string { summaryMonth + "-31" }

  /** Three disjoint tests pick at most the whole list between them. */
  lemma {:induction false} DisjointCountsBounded<T>(s: seq<T>, p: T -> bool, q: T -> bool, r: T -> bool)
    requires forall x :: !(p(x) && q(x)) && !(p(x) && r(x)) && !(q(x) && r(x))
    ensures Seqs.Count(s, p) + Seqs.Count(s, q) + Seqs.Count(s, r) <= |s|
    decreases |s|
  {
    if s != [] {
      DisjointCountsBounded(s[1..], p, q, r);
    }
  }

  /** `Math.round(part / whole * 100)`, computed exactly: the nearest integer, halves up. */
  function RoundedPercent(part: nat, whole: nat): (r: nat)
    requires part <= whole
    ensures r <= 100
    ensures whole == 0 ==> r == 0
    ensures whole > 0 ==> 2 * whole * r <= 200 * part + whole < 2 * whole * (r + 1)
  {
    if whole == 0 then 0
    else
      Js.RoundHalfUpAtMost(100 * part, whole, 100);
      Js.RoundHalfUp(100 * part, whole)
  }

  datatype AttendanceView = AttendanceView(employeeId: Val, date: string, status: string)

  datatype AttendanceSummary = AttendanceSummary(
    employee: Employees.Employee, totalDays: nat, presentDays: nat, wfhDays: nat, absentDays: nat, attendanceRate: nat)

  /** `a.employeeId === employee.id` and the date lies in the month's string window. */
  predicate InMonth(a: AttendanceView, e: Employees.Employee, summaryMonth: string) {
    StrictEq(a.employeeId, Num(e.id)) && InWindow(a.date, MonthStart(summaryMonth), MonthEnd(summaryMonth))
  }

  /** The employee's records dated in the month. */
  function MonthRecords(attendance: seq<AttendanceView>, e: Employees.Employee, summaryMonth: string): (r: seq<AttendanceView>)
    ensures forall i :: 0 <= i < |r| ==> r[i] in attendance && InMonth(r[i], e, summaryMonth)
    ensures forall i :: 0 <= i < |attendance| && InMonth(attendance[i], e, summaryMonth) ==> attendance[i] in r
  {
    Seqs.Filter(attendance, (a: AttendanceView) => InMonth(a, e, summaryMonth))
  }

  function CountStatus(records: seq<AttendanceView>, status: string): (n: nat)
    ensures n <= |records|
  {
    Seqs.Count(records, (a: AttendanceView) => a.status == status)
  }

  lemma AttendanceCountsBounded(records: seq<AttendanceView>, s1: string, s2: string, s3: string)
    requires s1 != s2 && s1 != s3 && s2 != s3
    ensures CountStatus(records, s1) + CountStatus(records, s2) + CountStatus(records, s3) <= |records|
  {
    DisjointCountsBounded(records, (a: AttendanceView) => a.status == s1,
                          (a: AttendanceView) => a.status == s2, (a: AttendanceView) => a.status == s3);
  }

  /** The employee's records in the month that carry `status`, as one test. */
  function MarkedInMonth(e: Employees.Employee, summaryMonth: string, status: string): AttendanceView -> bool {
    (a: AttendanceView) => InMonth(a, e, summaryMonth) && a.status == status
  }

  /** Counting a status among the month's records is counting, over all
      records, the employee's records in the month with that status. */
  lemma StatusCountIsOnePass(attendance: seq<AttendanceView>, e: Employees.Employee, summaryMonth: string, status: string)
    ensures CountStatus(MonthRecords(attendance, e, summaryMonth), status) == Seqs.Count(attendance, MarkedInMonth(e, summaryMonth, status))
  {
    Seqs.FilterTwice(attendance, (a: AttendanceView) => InMonth(a, e, summaryMonth),
                     (a: AttendanceView) => a.status == status, MarkedInMonth(e, summaryMonth, status));
  }

  /** One employee's line of `getMonthlyAttendanceSummary`. */
  function EmployeeAttendance(attendance: seq<AttendanceView>, e: Employees.Employee, summaryMonth: string): (r: AttendanceSummary)
    ensures r.employee == e && r.totalDays == |MonthRecords(attendance, e, summaryMonth)|
    ensures r.presentDays == Seqs.Count(attendance, MarkedInMonth(e, summaryMonth, "Present"))
    ensures r.wfhDays == Seqs.Count(attendance, MarkedInMonth(e, summaryMonth, "WFH"))
    ensures r.absentDays == Seqs.Count(attendance, MarkedInMonth(e, summaryMonth, "Absent"))
    ensures r.presentDays + r.wfhDays + r.absentDays <= r.totalDays
    ensures r.attendanceRate == RoundedPercent(r.presentDays + r.wfhDays, r.totalDays)
    ensures r.attendanceRate <= 100 && (r.totalDays == 0 ==> r.attendanceRate == 0)
  {
    var records := MonthRecords(attendance, e, summaryMonth);
    var present, wfh, absent := CountStatus(records, "Present"), CountStatus(records, "WFH"), CountStatus(records, "Absent");
    AttendanceCountsBounded(records, "Present", "WFH", "Absent");
    StatusCountIsOnePass(attendance, e, summaryMonth, "Present");
    StatusCountIsOnePass(attendance, e, summaryMonth, "WFH");
    StatusCountIsOnePass(attendance, e, summaryMonth, "Absent");
    AttendanceSummary(e, |records|, present, wfh, absent, RoundedPercent(present + wfh, |records|))
  }

  /** `getMonthlyAttendanceSummary`: one line per employee, in employee order. */
  function MonthlyAttendanceSummary(employees: seq<Employees.Employee>, attendance: seq<AttendanceView>, summaryMonth: string)
    : (r: seq<AttendanceSummary>)
    ensures |r| == |employees|
    ensures forall i :: 0 <= i < |employees| ==> r[i] == EmployeeAttendance(attendance, employees[i], summaryMonth)
  {
    seq(|employees|, i requires 0 <= i < |employees| => EmployeeAttendance(attendance, employees[i], summaryMonth))
  }

  /** A record of another employee, or dated outside the month, leaves the
      employee's totals as they were; one of theirs inside the month adds one day. */
  lemma OnlyTheirMonthCounts(attendance: seq<AttendanceView>, a: AttendanceView, e: Employees.Employee, summaryMonth: string)
    ensures var before := |MonthRecords(attendance, e, summaryMonth)|;
      var after := |MonthRecords(attendance + [a], e, summaryMonth)|;
      after == before + (if InMonth(a, e, summaryMonth) then 1 else 0)
  {
    Seqs.FilterAppend(attendance, [a], (x: AttendanceView) => InMonth(x, e, summaryMonth));
  }

  datatype LeaveView = LeaveView(employeeId: Val, startDate: string, endDate: string, status: string)

  /** The month test of `getMonthlyLeaveSummary`: start in the window, end in
      the window, or the request spans the window. */
  predicate Overlaps(l: LeaveView, monthStart: string, monthEnd: string) {
    InWindow(l.startDate, monthStart, monthEnd) || InWindow(l.endDate, monthStart, monthEnd)
    || (Text.LexLeq(l.startDate, monthStart) && Text.LexLeq(monthEnd, l.endDate))
  }

  /** For a request that does not end before it starts, the three-way test is
      exactly "the request and the window intersect". */
  lemma OverlapIsIntersection(l: LeaveView, monthStart: string, monthEnd: string)
    requires Text.LexLeq(l.startDate, l.endDate) && Text.LexLeq(monthStart, monthEnd)
    ensures Overlaps(l, monthStart, monthEnd) <==> Text.LexLeq(l.startDate, monthEnd) && Text.LexLeq(monthStart, l.endDate)
  {
    Text.LexLeqTotalOrder(l.startDate, l.endDate, monthEnd);
    Text.LexLeqTotalOrder(monthStart, l.startDate, l.endDate);
    Text.LexLeqTotalOrder(l.startDate, monthStart, monthEnd);
    Text.LexLeqTotalOrder(monthStart, monthEnd, l.endDate);
    Text.LexLeqTotalOrder(l.startDate, monthStart, l.endDate);
    Text.LexLeqTotalOrder(monthStart, l.endDate, monthEnd);
    Text.LexLeqTotalOrder(l.endDate, monthEnd, monthEnd);
  }

  datatype LeaveSummary = LeaveSummary(
    employee: Employees.Employee, totalRequests: nat, approvedRequests: nat, pendingRequests: nat, rejectedRequests: nat)

  predicate LeaveInMonth(l: LeaveView, e: Employees.Employee, summaryMonth: string) {
    StrictEq(l.employeeId, Num(e.id)) && Overlaps(l, MonthStart(summaryMonth), MonthEnd(summaryMonth))
  }

  /** The employee's requests that touch the month. */
  function MonthLeaves(leaves: seq<LeaveView>, e: Employees.Employee, summaryMonth: string): (r: seq<LeaveView>)
    ensures forall i :: 0 <= i < |r| ==> r[i] in leaves && LeaveInMonth(r[i], e, summaryMonth)
    ensures forall i :: 0 <= i < |leaves| && LeaveInMonth(leaves[i], e, summaryMonth) ==> leaves[i] in r
  {
    Seqs.Filter(leaves, (l: LeaveView) => LeaveInMonth(l, e, summaryMonth))
  }

  function CountLeaveStatus(leaves: seq<LeaveView>, status: string): (n: nat)
    ensures n <= |leaves|
  {
    Seqs.Count(leaves, (l: LeaveView) => l.status == status)
  }

  lemma LeaveCountsBounded(leaves: seq<LeaveView>, s1: string, s2: string, s3: string)
    requires s1 != s2 && s1 != s3 && s2 != s3
    ensures CountLeaveStatus(leaves, s1) + CountLeaveStatus(leaves, s2) + CountLeaveStatus(leaves, s3) <= |leaves|
  {
    DisjointCountsBounded(leaves, (l: LeaveView) => l.status == s1,
                          (l: LeaveView) => l.status == s2, (l: LeaveView) => l.status == s3);
  }

  /** The employee's requests touching the month that carry `status`, as one test. */
  function LeaveMarkedInMonth(e: Employees.Employee, summaryMonth: string, status: string): LeaveView -> bool {
    (l: LeaveView) => LeaveInMonth(l, e, summaryMonth) && l.status == status
  }

  lemma LeaveStatusCountIsOnePass(leaves: seq<LeaveView>, e: Employees.Employee, summaryMonth: string, status: string)
    ensures CountLeaveStatus(MonthLeaves(leaves, e, summaryMonth), status) == Seqs.Count(leaves, LeaveMarkedInMonth(e, summaryMonth, status))
  {
    Seqs.FilterTwice(leaves, (l: LeaveView) => LeaveInMonth(l, e, summaryMonth),
                     (l: LeaveView) => l.status == status, LeaveMarkedInMonth(e, summaryMonth, status));
  }

  /** One employee's line of `getMonthlyLeaveSummary` (without `totalLeaveDays`). */
  function EmployeeLeave(leaves: seq<LeaveView>, e: Employees.Employee, summaryMonth: string): (r: LeaveSummary)
    ensures r.employee == e && r.totalRequests == |MonthLeaves(leaves, e, summaryMonth)|
    ensures r.approvedRequests == Seqs.Count(leaves, LeaveMarkedInMonth(e, summaryMonth, "Approved"))
    ensures r.pendingRequests == Seqs.Count(leaves, LeaveMarkedInMonth(e, summaryMonth, "Pending"))
    ensures r.rejectedRequests == Seqs.Count(leaves, LeaveMarkedInMonth(e, summaryMonth, "Rejected"))
    ensures r.approvedRequests + r.pendingRequests + r.rejectedRequests <= r.totalRequests
  {
    var mine := MonthLeaves(leaves, e, summaryMonth);
    LeaveCountsBounded(mine, "Approved", "Pending", "Rejected");
    LeaveStatusCountIsOnePass(leaves, e, summaryMonth, "Approved");
    LeaveStatusCountIsOnePass(leaves, e, summaryMonth, "Pending");
    LeaveStatusCountIsOnePass(leaves, e, summaryMonth, "Rejected");
    LeaveSummary(e, |mine|, CountLeaveStatus(mine, "Approved"), CountLeaveStatus(mine, "Pending"), CountLeaveStatus(mine, "Rejected"))
  }

  /** `getMonthlyLeaveSummary`: one line per employee, in employee order. */
  function MonthlyLeaveSummary(employees: seq<Employees.Employee>, leaves: seq<LeaveView>, summaryMonth: string)
    : (r: seq<LeaveSummary>)
    ensures |r| == |employees|
    ensures forall i :: 0 <= i < |employees| ==> r[i] == EmployeeLeave(leaves, employees[i], summaryMonth)
  {
    seq(|employees|, i requires 0 <= i < |employees| => EmployeeLeave(leaves, employees[i], summaryMonth))
  }
}

/** The server's shared in-memory document and its routes. Each method is one
    route handler: it reads or rewrites the collections it names in its
    `modifies` clause, answers as the route's function in its module says,
    and keeps the document invariant `Valid()`. Wall-clock reads are the
    `now` (milliseconds) and `today` (day number) parameters. */
module Server {
  import opened Maybe
  import opened Js
  import opened Http
  import Seqs
  import Calendar
  import Employees
  import Attendance
  import Tasks
  import Leave
  import Issues
  import Announcements
  import WorkHours

  /** The three employees the server starts with, each with the default balance reset at `now`. */
  function SeedEmployees(now: int): (r: seq<Employees.Employee>)
    ensures |r| == 3 && Employees.Valid(r)
    ensures forall i :: 0 <= i < 3 ==> r[i].id == i + 1 && r[i].leaveBalance == 2 && r[i].lastBalanceReset == Some(now)
  {
    [ Employees.Employee(1, "John Doe", "john@company.com", "Developer", 2, Some(now)),
      Employees.Employee(2, "Jane Smith", "jane@company.com", "Designer", 2, Some(now)),
      Employees.Employee(3, "Bob Johnson", "bob@company.com", "Manager", 2, Some(now)) ]
  }

  class Store {
    var employees: seq<Employees.Employee>
    var attendance: seq<Attendance.AttendanceRecord>
    var tasks: seq<Tasks.Task>
    var leaveRequests: seq<Leave.LeaveRequest>
    var announcements: Option<seq<Announcements.Announcement>>
    var issues: Option<seq<Issues.Issue>>
    var workHours: Option<seq<WorkHours.WorkEntry>>

    /** Every collection keeps its own invariant. */
    ghost predicate Valid()
      reads this
    {
      && Employees.Valid(employees)
      && Attendance.Valid(attendance)
      && Tasks.Valid(tasks)
      && Leave.Valid(leaveRequests)
      && Announcements.Valid(announcements)
      && Issues.Valid(issues)
      && WorkHours.Valid(workHours)
    }

    /** The seed document: three employees and empty lists. */
    constructor (now: int)
      ensures Valid()
      ensures employees == SeedEmployees(now)
      ensures attendance == [] && tasks == [] && leaveRequests == []
      ensures announcements == Some([]) && issues == Some([]) && workHours == Some([])
    {
      employees := SeedEmployees(now);
      attendance := [];
      tasks := [];
      leaveRequests := [];
      announcements := Some([]);
      issues := Some([]);
      workHours := Some([]);
    }

    // ---- /api/employees ----

    method ListEmployees() returns (r: seq<Employees.Employee>)
      ensures r == employees
    {
      r := employees;
    }

    method GetEmployee(key: Val) returns (r: Outcome<Employees.Employee>)
      ensures r == Employees.Get(employees, key)
    {
      var i := IndexOfKey(employees, Employees.EmployeeId, key);
      if i < 0 {
        r := NotFound(Employees.NotFoundMessage);
      } else {
        r := Ok(employees[i]);
      }
    }

    method CreateEmployee(body: Employees.EmployeeBody, now: int) returns (r: Outcome<Employees.Employee>)
      requires Valid()
      modifies this`employees
      ensures Valid()
      ensures r == Employees.Create(old(employees), body, now)
      ensures employees == if r.Ok? then old(employees) + [r.value] else old(employees)
    {
      r := Employees.Create(employees, body, now);
      if r.Ok? {
        Employees.CreateThenGet(employees, body, now);
        employees := employees + [r.value];
      }
    }

    method UpdateEmployee(key: Val, body: Employees.EmployeeBody) returns (r: Outcome<Employees.Employee>)
      requires Valid()
      modifies this`employees
      ensures Valid()
      ensures r == Employees.Update(old(employees), key, body)
      ensures employees == if r.Ok? then old(employees)[IndexOfKey(old(employees), Employees.EmployeeId, key) := r.value] else old(employees)
    {
      var i := IndexOfKey(employees, Employees.EmployeeId, key);
      r := Employees.Update(employees, key, body);
      if r.Ok? {
        Employees.UpdateThenGet(employees, key, body);
        employees := employees[i := r.value];
      }
    }

    method DeleteEmployee(key: Val) returns (r: Outcome<string>)
      requires Valid()
      modifies this`employees
      ensures Valid()
      ensures r == Employees.Delete(old(employees), key).outcome
      ensures employees == Employees.Delete(old(employees), key).state
    {
      Employees.DeleteKeepsValid(employees, key);
      var i := IndexOfKey(employees, Employees.EmployeeId, key);
      if i < 0 {
        r := NotFound(Employees.NotFoundMessage);
      } else {
        employees := employees[..i] + employees[i + 1..];
        r := Ok(Employees.DeletedMessage);
      }
    }

    // ---- /api/attendance ----

    method ListAttendance(date: string) returns (r: seq<Attendance.AttendanceRecord>)
      ensures r == Attendance.List(attendance, date)
    {
      r := Attendance.List(attendance, date);
    }

    method ListAttendanceByEmployee(key: Val) returns (r: seq<Attendance.AttendanceRecord>)
      ensures r == Attendance.ListByEmployee(attendance, key)
    {
      r := Attendance.ListByEmployee(attendance, key);
    }

    method MarkAttendance(body: Attendance.MarkBody, now: int) returns (r: Outcome<Attendance.AttendanceRecord>)
      requires Valid()
      modifies this`attendance
      ensures Valid()
      ensures r == Attendance.Mark(old(attendance), body, now).outcome
      ensures attendance == Attendance.Mark(old(attendance), body, now).state
    {
      Attendance.MarkKeepsValid(attendance, body, now);
      if !Truthy(body.employeeId) || body.date == "" || body.status == "" {
        r := BadRequest(Attendance.MissingFields);
        return;
      }
      attendance := Attendance.Remaining(attendance, body.employeeId, body.date);
      var record := Attendance.AttendanceRecord(Seqs.NextKey(attendance, Attendance.RecordId),
                                                ParseInt(body.employeeId), body.date, body.status, now);
      attendance := attendance + [record];
      r := Ok(record);
    }

    method DeleteAttendance(key: Val) returns (r: Outcome<string>)
      requires Valid()
      modifies this`attendance
      ensures Valid()
      ensures r == Attendance.Delete(old(attendance), key).outcome
      ensures attendance == Attendance.Delete(old(attendance), key).state
    {
      Attendance.DeleteKeepsValid(attendance, key);
      var i := IndexOfKey(attendance, Attendance.RecordId, key);
      if i < 0 {
        r := NotFound(Attendance.NotFoundMessage);
      } else {
        attendance := attendance[..i] + attendance[i + 1..];
        r := Ok(Attendance.DeletedMessage);
      }
    }

    // ---- /api/tasks ----

    /** `GET /`: the `forEach` that reopens stale recurring tasks, then the status filter. */
    method ListTasks(status: string, today: int) returns (r: seq<Tasks.Task>)
      requires Valid()
      modifies this`tasks
      ensures Valid()
      ensures tasks == Tasks.ResetRecurring(old(tasks), today)
      ensures r == Tasks.WithStatus(tasks, status)
    {
      Tasks.ResetKeepsValid(tasks, today);
      var i := 0;
      while i < |tasks|
        invariant 0 <= i <= |tasks| == |old(tasks)|
        invariant forall j :: 0 <= j < i ==> tasks[j] == Tasks.ResetTask(old(tasks)[j], today)
        invariant forall j :: i <= j < |tasks| ==> tasks[j] == old(tasks)[j]
      {
        if Tasks.NeedsReset(tasks[i], today) {
          tasks := tasks[i := tasks[i].(status := Tasks.InProgress)];
        }
        i := i + 1;
      }
      r := Tasks.WithStatus(tasks, status);
    }

    method GetTask(key: Val) returns (r: Outcome<Tasks.Task>)
      ensures r == Tasks.Get(tasks, key)
    {
      r := Tasks.Get(tasks, key);
    }

    method ListTasksByEmployee(key: Val) returns (r: seq<Tasks.Task>)
      ensures r == Tasks.ListByEmployee(tasks, key)
    {
      r := Tasks.ListByEmployee(tasks, key);
    }

    method CreateTask(body: Tasks.TaskBody, today: int, now: int) returns (r: Outcome<Tasks.Task>)
      requires Valid()
      modifies this`tasks
      ensures Valid()
      ensures r == Tasks.Create(old(tasks), body, today, now)
      ensures tasks == if r.Ok? then old(tasks) + [r.value] else old(tasks)
    {
      r := Tasks.Create(tasks, body, today, now);
      if r.Ok? {
        Tasks.CreateThenGet(tasks, body, today, now);
        tasks := tasks + [r.value];
      }
    }

    method UpdateTask(key: Val, body: Tasks.TaskUpdate, today: int, now: int) returns (r: Outcome<Tasks.Task>)
      requires Valid()
      modifies this`tasks
      ensures Valid()
      ensures r == Tasks.Update(old(tasks), key, body, today, now)
      ensures tasks == if r.Ok? then old(tasks)[IndexOfKey(old(tasks), Tasks.TaskId, key) := r.value] else old(tasks)
    {
      var i := IndexOfKey(tasks, Tasks.TaskId, key);
      if i < 0 {
        r := NotFound(Tasks.NotFoundMessage);
        return;
      }
      r := Tasks.Update(tasks, key, body, today, now);
      Tasks.UpdateKeepsValid(tasks, key, body, today, now);
      if body.action == "complete" {
        var t := tasks[i];
        if Truthy(t.isRecurring) {
          tasks := tasks[i := t.(status := Tasks.Completed, lastCompletedDate := Some(today), completedAt := Some(now))];
        } else {
          tasks := tasks[i := t.(status := Tasks.Completed, completedAt := Some(now))];
        }
      } else if body.status != "" {
        tasks := tasks[i := tasks[i].(status := body.status)];
      }
    }

    method DeleteTask(key: Val) returns (r: Outcome<string>)
      requires Valid()
      modifies this`tasks
      ensures Valid()
      ensures r == Tasks.Delete(old(tasks), key).outcome
      ensures tasks == Tasks.Delete(old(tasks), key).state
    {
      Tasks.DeleteKeepsValid(tasks, key);
      var i := IndexOfKey(tasks, Tasks.TaskId, key);
      if i < 0 {
        r := NotFound(Tasks.NotFoundMessage);
      } else {
        tasks := tasks[..i] + tasks[i + 1..];
        r := Ok(Tasks.DeletedMessage);
      }
    }

    // ---- /api/leave ----

    method ListLeave(status: string) returns (r: seq<Leave.LeaveRequest>)
      ensures r == Leave.List(leaveRequests, status)
    {
      r := Leave.List(leaveRequests, status);
    }

    method GetLeave(key: Val) returns (r: Outcome<Leave.LeaveRequest>)
      ensures r == Leave.Get(leaveRequests, key)
    {
      r := Leave.Get(leaveRequests, key);
    }

    method ListLeaveByEmployee(key: Val) returns (r: seq<Leave.LeaveRequest>)
      ensures r == Leave.ListByEmployee(leaveRequests, key)
    {
      r := Leave.ListByEmployee(leaveRequests, key);
    }

    method CreateLeave(body: Leave.LeaveBody, now: int) returns (r: Outcome<Leave.LeaveRequest>)
      requires Valid()
      modifies this`leaveRequests
      ensures Valid()
      ensures r == Leave.Create(old(leaveRequests), body, now)
      ensures leaveRequests == if r.Ok? then old(leaveRequests) + [r.value] else old(leaveRequests)
    {
      r := Leave.Create(leaveRequests, body, now);
      if r.Ok? {
        Leave.CreateKeepsValid(leaveRequests, body, now);
        leaveRequests := leaveRequests + [r.value];
      }
    }

    /** `PUT /:id`: approve or reject, updating the employee's balance on approval. */
    method ReviewLeave(key: Val, status: string, now: int) returns (r: Outcome<Leave.LeaveRequest>)
      requires Valid()
      modifies this`leaveRequests, this`employees
      ensures Valid()
      ensures var review := Leave.ReviewRequest(old(leaveRequests), old(employees), key, status, now);
        r == review.outcome && leaveRequests == review.requests && employees == review.employees
    {
      Leave.ReviewKeepsValid(leaveRequests, employees, key, status, now);
      ghost var requests0, employees0 := leaveRequests, employees;
      ghost var review := Leave.ReviewRequest(requests0, employees0, key, status, now);
      var i := IndexOfKey(leaveRequests, Leave.RequestId, key);
      if i < 0 {
        r := NotFound(Leave.NotFoundMessage);
      } else if status != Leave.Approved && status != Leave.Rejected {
        r := Ok(leaveRequests[i]);
      } else {
        var l := leaveRequests[i];
        var j := if status == Leave.Approved then IndexOfKey(employees, Employees.EmployeeId, l.employeeId) else -1;
        var refused := false;
        if j >= 0 {
          // The monthly reset is written back whether or not the balance suffices.
          var e := Leave.AfterReset(employees[j], now);
          var days := Leave.LeaveDays(l);
          if e.leaveBalance < days {
            employees := employees[j := e];
            r := BadRequest(Leave.Insufficient);
            refused := true;
          } else {
            employees := employees[j := e.(leaveBalance := (if e.leaveBalance != 0 then e.leaveBalance else Employees.DefaultLeaveBalance) - days)];
          }
        }
        if !refused {
          leaveRequests := leaveRequests[i := Leave.Decided(l, status, now)];
          r := Ok(leaveRequests[i]);
        }
      }
      assert review == Leave.Review(leaveRequests, employees, r);
    }

    method DeleteLeave(key: Val) returns (r: Outcome<string>)
      requires Valid()
      modifies this`leaveRequests
      ensures Valid()
      ensures r == Leave.Delete(old(leaveRequests), key).outcome
      ensures leaveRequests == Leave.Delete(old(leaveRequests), key).state
    {
      Leave.DeleteKeepsValid(leaveRequests, key);
      var i := IndexOfKey(leaveRequests, Leave.RequestId, key);
      if i < 0 {
        r := NotFound(Leave.NotFoundMessage);
      } else {
        leaveRequests := leaveRequests[..i] + leaveRequests[i + 1..];
        r := Ok(Leave.DeletedMessage);
      }
    }

    // ---- /api/issues ----

    method ListIssues() returns (r: seq<Issues.Issue>)
      requires Valid()
      modifies this`issues
      ensures Valid()
      ensures issues == ListAll(old(issues)).state && Ok(r) == ListAll(old(issues)).outcome
    {
      if issues.None? {
        issues := Some([]);
      }
      r := issues.value;
    }

    method ListIssuesByEmployee(key: Val) returns (r: seq<Issues.Issue>)
      requires Valid()
      modifies this`issues
      ensures Valid()
      ensures issues == Issues.ListByEmployee(old(issues), key).state
      ensures Ok(r) == Issues.ListByEmployee(old(issues), key).outcome
    {
      if issues.None? {
        issues := Some([]);
      }
      r := ByEmployee(issues.value, Issues.IssueEmployee, key);
    }

    method CreateIssue(body: Issues.IssueBody, now: int) returns (r: Outcome<Issues.Issue>)
      requires Valid()
      modifies this`issues
      ensures Valid()
      ensures r == Issues.Create(old(issues), body, now).outcome
      ensures issues == Issues.Create(old(issues), body, now).state
    {
      Issues.CreateKeepsValid(issues, body, now);
      var reply := Issues.Create(issues, body, now);
      if issues.None? {
        issues := Some([]);
      }
      r := reply.outcome;
      if r.Ok? {
        issues := Some(issues.value + [r.value]);
      }
    }

    method UpdateIssue(key: Val, status: string) returns (r: Outcome<Issues.Issue>)
      requires Valid()
      modifies this`issues
      ensures Valid()
      ensures r == Issues.UpdateStatus(old(issues), key, status)
      ensures issues == if r.Ok? then Some(old(issues).value[Issues.Locate(old(issues), key) := r.value]) else old(issues)
    {
      var i := Issues.Locate(issues, key);
      if i < 0 {
        r := NotFound(Issues.NotFoundMessage);
        return;
      }
      Issues.UpdateKeepsValid(issues, key, status);
      var issue := if status != "" then issues.value[i].(status := status) else issues.value[i];
      issues := Some(issues.value[i := issue]);
      r := Ok(issue);
    }

    method DeleteIssue(key: Val) returns (r: Outcome<string>)
      requires Valid()
      modifies this`issues
      ensures Valid()
      ensures r == Issues.Delete(old(issues), key).outcome
      ensures issues == Issues.Delete(old(issues), key).state
    {
      Issues.DeleteKeepsValid(issues, key);
      var i := Issues.Locate(issues, key);
      if i < 0 {
        r := NotFound(Issues.NotFoundMessage);
      } else {
        issues := Some(Seqs.RemoveAt(issues.value, i));
        r := Ok(Issues.DeletedMessage);
      }
    }

    // ---- /api/announcements ----

    method ListAnnouncements() returns (r: seq<Announcements.Announcement>)
      requires Valid()
      modifies this`announcements
      ensures Valid()
      ensures announcements == ListAll(old(announcements)).state
      ensures Ok(r) == ListAll(old(announcements)).outcome
    {
      if announcements.None? {
        announcements := Some([]);
      }
      r := announcements.value;
    }

    /** `POST /`. The announcement is stored before the notification is
        attempted, and whatever that attempt does, the answer is the stored announcement. */
    method CreateAnnouncement(body: Announcements.AnnouncementBody, now: int) returns (r: Outcome<Announcements.Announcement>)
      requires Valid()
      modifies this`announcements
      ensures Valid()
      ensures r == Announcements.Create(old(announcements), body, now).outcome
      ensures announcements == Announcements.Create(old(announcements), body, now).state
    {
      Announcements.CreateKeepsValid(announcements, body, now);
      var reply := Announcements.Create(announcements, body, now);
      if announcements.None? {
        announcements := Some([]);
      }
      r := reply.outcome;
      if r.Ok? {
        announcements := Some(announcements.value + [r.value]);
      }
    }

    method DeleteAnnouncement(key: Val) returns (r: Outcome<string>)
      requires Valid()
      modifies this`announcements
      ensures Valid()
      ensures r == Announcements.Delete(old(announcements), key).outcome
      ensures announcements == Announcements.Delete(old(announcements), key).state
    {
      Announcements.DeleteKeepsValid(announcements, key);
      var i := Announcements.Locate(announcements, key);
      if i < 0 {
        r := NotFound(Announcements.NotFoundMessage);
      } else {
        announcements := Some(Seqs.RemoveAt(announcements.value, i));
        r := Ok(Announcements.DeletedMessage);
      }
    }

    // ---- /api/workhours ----

    method ListWorkHours() returns (r: seq<WorkHours.WorkEntry>)
      ensures r == OrEmpty(workHours)
    {
      r := OrEmpty(workHours);
    }

    method ListWorkHoursByEmployee(key: Val) returns (r: seq<WorkHours.WorkEntry>)
      ensures r == WorkHours.ListByEmployee(workHours, key)
    {
      r := WorkHours.ListByEmployee(workHours, key);
    }

    method CheckIn(employeeId: Val, now: int) returns (r: Outcome<WorkHours.WorkEntry>)
      requires Valid()
      modifies this`workHours
      ensures Valid()
      ensures r == WorkHours.CheckIn(old(workHours), employeeId, now).outcome
      ensures workHours == WorkHours.CheckIn(old(workHours), employeeId, now).state
    {
      WorkHours.CheckInKeepsValid(workHours, employeeId, now);
      if !Truthy(employeeId) {
        r := BadRequest(WorkHours.MissingEmployee);
        return;
      }
      if workHours.None? {
        workHours := Some([]);
      }
      var today := Calendar.DayOf(now);
      if WorkHours.OpenIndex(workHours.value, employeeId, today) >= 0 {
        r := BadRequest(WorkHours.AlreadyCheckedIn);
        return;
      }
      var entry := WorkHours.WorkEntry(|workHours.value| + 1, employeeId, today, now, None, 0, 0);
      workHours := Some(workHours.value + [entry]);
      r := Ok(entry);
    }

    method CheckOut(employeeId: Val, now: int) returns (r: Outcome<WorkHours.WorkEntry>)
      requires Valid()
      modifies this`workHours
      ensures Valid()
      ensures r == WorkHours.CheckOut(old(workHours), employeeId, now).outcome
      ensures workHours == WorkHours.CheckOut(old(workHours), employeeId, now).state
    {
      WorkHours.CheckOutKeepsValid(workHours, employeeId, now);
      if !Truthy(employeeId) {
        r := BadRequest(WorkHours.MissingEmployee);
        return;
      }
      if workHours.None? {
        r := ServerError;
        return;
      }
      var i := WorkHours.OpenIndex(workHours.value, employeeId, Calendar.DayOf(now));
      if i < 0 {
        r := BadRequest(WorkHours.NoCheckIn);
        return;
      }
      var entry := WorkHours.Closed(workHours.value[i], now);
      workHours := Some(workHours.value[i := entry]);
      r := Ok(entry);
    }

    method WeeklySummary(key: Val, now: int) returns (r: WorkHours.WeeklySummary)
      ensures r == WorkHours.Weekly(workHours, key, now)
    {
      r := WorkHours.Weekly(workHours, key, now);
    }
  }
}

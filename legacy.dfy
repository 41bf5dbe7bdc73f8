/** The data operations of the stand-alone browser page: four global lists
    that the page's handlers reassign or push onto, and task and leave objects
    whose fields they set in place. Form values arrive as strings; `now` is
    the wall-clock instant the handler reads. */
module Legacy {
  import opened Maybe
  import opened Js
  import Text
  import Seqs

  datatype Employee = Employee(id: int, name: string, email: string, position: string)
  datatype Record = Record(employeeId: int, date: string, status: string, markedAt: int)
  datatype Task = Task(id: int, employeeId: int, title: string, description: string, deadline: string,
                       status: string, createdAt: int, completedAt: Option<int>, approvedAt: Option<int>)
  /** Dates are day numbers; the form's empty date is `None`. */
  datatype LeaveRequest = LeaveRequest(id: int, employeeId: int, startDate: int, endDate: int, leaveType: string,
                                       reason: string, status: string, requestedAt: int, reviewedAt: Option<int>)

  function EmployeeId(e: Employee): int { e.id }
  function TaskId(t: Task): int { t.id }
  function LeaveId(l: LeaveRequest): int { l.id }

  const InProgress: string := "In Progress"
  const WaitingApproval: string := "Waiting Approval"
  const Completed: string := "Completed"
  const Pending: string := "Pending"
  const Approved: string := "Approved"
  const Rejected: string := "Rejected"

  /** The sample employees `loadData` installs when storage holds none. */
  function SampleEmployees(): (r: seq<Employee>)
    ensures |r| == 3 && Seqs.UniqueKeys(r, EmployeeId)
  {
    [ Employee(1, "John Doe", "john@company.com", "Developer"),
      Employee(2, "Jane Smith", "jane@company.com", "Designer"),
      Employee(3, "Bob Johnson", "bob@company.com", "Manager") ]
  }

  // ---- employees ----

  /** `addEmployee`: the trimmed fields must all be non-empty; the new employee gets `max(ids) + 1`. */
  function AddEmployeeTo(employees: seq<Employee>, name: string, email: string, position: string): (r: seq<Employee>)
    ensures Text.Trim(name) == "" || Text.Trim(email) == "" || Text.Trim(position) == "" ==> r == employees
    ensures Text.Trim(name) != "" && Text.Trim(email) != "" && Text.Trim(position) != "" ==>
      r == employees + [Employee(Seqs.NextKey(employees, EmployeeId), Text.Trim(name), Text.Trim(email), Text.Trim(position))]
  {
    var n, e, p := Text.Trim(name), Text.Trim(email), Text.Trim(position);
    if n == "" || e == "" || p == "" then employees
    else employees + [Employee(Seqs.NextKey(employees, EmployeeId), n, e, p)]
  }

  /** `employees.filter(emp => emp.id !== id)`, and likewise for tasks and leave requests. */
  function WithoutId<T>(s: seq<T>, id: T -> int, key: int): (r: seq<T>)
    ensures forall i :: 0 <= i < |r| ==> id(r[i]) != key && r[i] in s
    ensures forall i :: 0 <= i < |s| && id(s[i]) != key ==> s[i] in r
  {
    Seqs.Filter(s, x => id(x) != key)
  }

  lemma WithoutIdKeepsUnique<T>(s: seq<T>, id: T -> int, key: int)
    requires Seqs.UniqueKeys(s, id)
    ensures Seqs.UniqueKeys(WithoutId(s, id, key), id)
  {
    Seqs.FilterKeepsUnique(s, id, x => id(x) != key);
  }

  /** Deleting removes every entry with that id and keeps the others in their
      order: deleting from a concatenation deletes from each part, and an id
      nobody has changes nothing. */
  lemma DeleteKeepsOrder<T>(a: seq<T>, b: seq<T>, id: T -> int, key: int)
    ensures WithoutId(a + b, id, key) == WithoutId(a, id, key) + WithoutId(b, id, key)
    ensures (forall i :: 0 <= i < |a| ==> id(a[i]) != key) ==> WithoutId(a, id, key) == a
  {
    Seqs.FilterAppend(a, b, x => id(x) != key);
    if forall i :: 0 <= i < |a| ==> id(a[i]) != key {
      Seqs.FilterAll(a, x => id(x) != key);
    }
  }

  // ---- attendance ----

  predicate SameSlot(r: Record, employeeId: int, date: string) {
    r.employeeId == employeeId && r.date == date
  }

  function OtherSlots(attendance: seq<Record>, employeeId: int, date: string): (r: seq<Record>)
    ensures forall i :: 0 <= i < |r| ==> !SameSlot(r[i], employeeId, date) && r[i] in attendance
    ensures forall i :: 0 <= i < |attendance| && !SameSlot(attendance[i], employeeId, date) ==> attendance[i] in r
  {
    Seqs.Filter(attendance, (a: Record) => !SameSlot(a, employeeId, date))
  }

  /** `markAttendance`: drop the employee's records for that date, then push the new one. */
  function MarkAttendanceIn(attendance: seq<Record>, employeeId: int, date: string, status: string, now: int): (r: seq<Record>)
    ensures |r| >= 1 && r[|r| - 1] == Record(employeeId, date, status, now)
    ensures r[..|r| - 1] == OtherSlots(attendance, employeeId, date)
  {
    OtherSlots(attendance, employeeId, date) + [Record(employeeId, date, status, now)]
  }

  /** After marking, exactly one record holds that employee and date: the new
      one, with the new status. */
  lemma MarkLeavesOneRecord(attendance: seq<Record>, employeeId: int, date: string, status: string, now: int)
    ensures var r := MarkAttendanceIn(attendance, employeeId, date, status, now);
      Seqs.Count(r, (a: Record) => SameSlot(a, employeeId, date)) == 1
      && forall i :: 0 <= i < |r| && SameSlot(r[i], employeeId, date) ==> r[i].status == status && i == |r| - 1
  {
    var rest := OtherSlots(attendance, employeeId, date);
    var p := (a: Record) => SameSlot(a, employeeId, date);
    Seqs.FilterAppend(rest, [Record(employeeId, date, status, now)], p);
    Seqs.FilterNone(rest, p);
    assert Seqs.Filter([Record(employeeId, date, status, now)], p) == [Record(employeeId, date, status, now)];
  }

  // ---- tasks ----

  /** `addTask`: the parsed employee id, title, description and deadline must be truthy. */
  function AddTaskTo(tasks: seq<Task>, employeeField: string, title: string, description: string,
                   deadline: string, now: int): (r: seq<Task>)
    ensures var e := ParseInt(Str(employeeField));
      if !Truthy(e) || Text.Trim(title) == "" || Text.Trim(description) == "" || deadline == "" then r == tasks
      else r == tasks + [Task(Seqs.NextKey(tasks, TaskId), e.n, Text.Trim(title), Text.Trim(description),
                              deadline, InProgress, now, None, None)]
  {
    var e := ParseInt(Str(employeeField));
    var t, d := Text.Trim(title), Text.Trim(description);
    if !Truthy(e) || t == "" || d == "" || deadline == "" then tasks
    else
      assert e.Num?;
      tasks + [Task(Seqs.NextKey(tasks, TaskId), e.n, t, d, deadline, InProgress, now, None, None)]
  }

  /** The three buttons of the approval flow. */
  datatype TaskAction = MarkComplete | Approve | Reject

  /** What each button does to a task, whatever its current status. */
  function Act(t: Task, action: TaskAction, now: int): (r: Task)
    ensures r.id == t.id && r.employeeId == t.employeeId && r.title == t.title
    ensures r.description == t.description && r.deadline == t.deadline && r.createdAt == t.createdAt
    ensures action == MarkComplete ==> r.status == WaitingApproval && r.completedAt == Some(now) && r.approvedAt == t.approvedAt
    ensures action == Approve ==> r.status == Completed && r.approvedAt == Some(now) && r.completedAt == t.completedAt
    ensures action == Reject ==> r.status == InProgress && r.completedAt == None && r.approvedAt == t.approvedAt
  {
    match action
    case MarkComplete => t.(status := WaitingApproval, completedAt := Some(now))
    case Approve => t.(status := Completed, approvedAt := Some(now))
    case Reject => t.(status := InProgress, completedAt := None)
  }

  /** `tasks.find(t => t.id === taskId)` and the button's update on what it found. */
  function ActOnTask(tasks: seq<Task>, taskId: int, action: TaskAction, now: int): (r: seq<Task>)
    ensures |r| == |tasks|
    ensures var i := Seqs.FindIndex(tasks, (t: Task) => t.id == taskId);
      forall j :: 0 <= j < |tasks| ==> r[j] == if j == i then Act(tasks[j], action, now) else tasks[j]
  {
    var i := Seqs.FindIndex(tasks, (t: Task) => t.id == taskId);
    if i < 0 then tasks else tasks[i := Act(tasks[i], action, now)]
  }

  /** Only the task with that id changes, ids stay unique, and an unknown id changes nothing. */
  lemma ActOnTaskTouchesOne(tasks: seq<Task>, taskId: int, action: TaskAction, now: int)
    requires Seqs.UniqueKeys(tasks, TaskId)
    ensures var r := ActOnTask(tasks, taskId, action, now);
      && Seqs.UniqueKeys(r, TaskId)
      && (forall j :: 0 <= j < |tasks| && tasks[j].id != taskId ==> r[j] == tasks[j])
      && ((forall j :: 0 <= j < |tasks| ==> tasks[j].id != taskId) ==> r == tasks)
  {
    var i := Seqs.FindIndex(tasks, (t: Task) => t.id == taskId);
    if i >= 0 {
      Seqs.UpdateKeepsUnique(tasks, TaskId, i, Act(tasks[i], action, now));
    }
  }

  /** Rejecting a task just marked complete restores it, when it had not been
      completed before: the flow's round trip. */
  lemma RejectUndoesMarkComplete(tasks: seq<Task>, taskId: int, now: int, later: int)
    requires forall j :: 0 <= j < |tasks| && tasks[j].id == taskId ==> tasks[j].status == InProgress && tasks[j].completedAt == None
    ensures ActOnTask(ActOnTask(tasks, taskId, MarkComplete, now), taskId, Reject, later) == tasks
  {
    var p := (t: Task) => t.id == taskId;
    var i := Seqs.FindIndex(tasks, p);
    var m := ActOnTask(tasks, taskId, MarkComplete, now);
    if i >= 0 {
      assert Seqs.FindIndex(m, p) == i by {
        assert forall j :: 0 <= j < i ==> m[j] == tasks[j];
        assert p(m[i]);
      }
    } else {
      assert m == tasks;
    }
    var r := ActOnTask(m, taskId, Reject, later);
    assert forall j :: 0 <= j < |tasks| ==> r[j] == tasks[j];
  }

  /** Mark complete then approve leaves the task Completed with both instants recorded. */
  lemma ApproveAfterMarkComplete(tasks: seq<Task>, taskId: int, now: int, later: int, j: nat)
    requires Seqs.UniqueKeys(tasks, TaskId) && j < |tasks| && tasks[j].id == taskId
    ensures var r := ActOnTask(ActOnTask(tasks, taskId, MarkComplete, now), taskId, Approve, later);
      r[j].status == Completed && r[j].completedAt == Some(now) && r[j].approvedAt == Some(later)
  {
    var p := (t: Task) => t.id == taskId;
    assert Seqs.FindIndex(tasks, p) == j;
    var m := ActOnTask(tasks, taskId, MarkComplete, now);
    ActOnTaskTouchesOne(tasks, taskId, MarkComplete, now);
    assert Seqs.FindIndex(m, p) == j by {
      assert forall k :: 0 <= k < j ==> m[k] == tasks[k];
      assert p(m[j]);
    }
  }

  // ---- leave requests ----

  /** `requestLeave`: the parsed employee id, both dates and the trimmed reason
      must be present (the type is not checked), and the start may not be after the end. */
  function RequestLeaveIn(requests: seq<LeaveRequest>, employeeField: string, startDate: Option<int>, endDate: Option<int>,
                        leaveType: string, reason: string, now: int): (r: seq<LeaveRequest>)
    ensures var e := ParseInt(Str(employeeField));
      if !Truthy(e) || startDate.None? || endDate.None? || Text.Trim(reason) == "" || startDate.value > endDate.value then r == requests
      else r == requests + [LeaveRequest(Seqs.NextKey(requests, LeaveId), e.n, startDate.value, endDate.value, leaveType,
                                         Text.Trim(reason), Pending, now, None)]
  {
    var e := ParseInt(Str(employeeField));
    var why := Text.Trim(reason);
    if !Truthy(e) || startDate.None? || endDate.None? || why == "" then requests
    else if startDate.value > endDate.value then requests
    else
      assert e.Num?;
      requests + [LeaveRequest(Seqs.NextKey(requests, LeaveId), e.n, startDate.value, endDate.value, leaveType, why, Pending, now, None)]
  }

  /** `approveLeave` / `rejectLeave`: the first request with that id gets the
      decision and `reviewedAt`, whatever its status was; balances are not consulted. */
  function ReviewLeave(requests: seq<LeaveRequest>, leaveId: int, decision: string, now: int): (r: seq<LeaveRequest>)
    ensures |r| == |requests|
    ensures var i := Seqs.FindIndex(requests, (l: LeaveRequest) => l.id == leaveId);
      forall j :: 0 <= j < |requests| ==>
        r[j] == if j == i then requests[j].(status := decision, reviewedAt := Some(now)) else requests[j]
  {
    var i := Seqs.FindIndex(requests, (l: LeaveRequest) => l.id == leaveId);
    if i < 0 then requests else requests[i := requests[i].(status := decision, reviewedAt := Some(now))]
  }

  /** Request ids are unique and every request spans a non-empty range. */
  predicate RequestsWellFormed(requests: seq<LeaveRequest>) {
    Seqs.UniqueKeys(requests, LeaveId) && forall i :: 0 <= i < |requests| ==> requests[i].startDate <= requests[i].endDate
  }

  lemma RequestLeaveKeepsWellFormed(requests: seq<LeaveRequest>, employeeField: string, startDate: Option<int>,
                                    endDate: Option<int>, leaveType: string, reason: string, now: int)
    requires RequestsWellFormed(requests)
    ensures var r := RequestLeaveIn(requests, employeeField, startDate, endDate, leaveType, reason, now);
      RequestsWellFormed(r) && (|r| == |requests| + 1 ==> r[|requests|].status == Pending)
  {
    var r := RequestLeaveIn(requests, employeeField, startDate, endDate, leaveType, reason, now);
    if |r| != |requests| {
      Seqs.AppendNextKeepsUnique(requests, LeaveId, r[|requests|]);
    }
  }

  lemma ReviewLeaveKeepsWellFormed(requests: seq<LeaveRequest>, leaveId: int, decision: string, now: int)
    requires RequestsWellFormed(requests)
    ensures RequestsWellFormed(ReviewLeave(requests, leaveId, decision, now))
  {
    var i := Seqs.FindIndex(requests, (l: LeaveRequest) => l.id == leaveId);
    if i >= 0 {
      Seqs.UpdateKeepsUnique(requests, LeaveId, i, requests[i].(status := decision, reviewedAt := Some(now)));
    }
  }

  /** The page's state: the four global lists. */
  class App {
    var employees: seq<Employee>
    var attendance: seq<Record>
    var tasks: seq<Task>
    var leaveRequests: seq<LeaveRequest>

    /** Ids are unique in each list and every leave request spans a non-empty range. */
    ghost predicate Valid()
      reads this
    {
      Seqs.UniqueKeys(employees, EmployeeId) && Seqs.UniqueKeys(tasks, TaskId) && RequestsWellFormed(leaveRequests)
    }

    /** `loadData` with nothing in storage: the sample employees and empty lists. */
    constructor ()
      ensures Valid()
      ensures employees == SampleEmployees() && attendance == [] && tasks == [] && leaveRequests == []
    {
      employees := SampleEmployees();
      attendance := [];
      tasks := [];
      leaveRequests := [];
    }

    method AddEmployee(name: string, email: string, position: string)
      requires Valid()
      modifies this`employees
      ensures Valid()
      ensures employees == AddEmployeeTo(old(employees), name, email, position)
    {
      var n, e, p := Text.Trim(name), Text.Trim(email), Text.Trim(position);
      if n == "" || e == "" || p == "" {
        return;
      }
      var hire := Employee(Seqs.NextKey(employees, EmployeeId), n, e, p);
      Seqs.AppendNextKeepsUnique(employees, EmployeeId, hire);
      employees := employees + [hire];
    }

    method DeleteEmployee(id: int)
      requires Valid()
      modifies this`employees
      ensures Valid()
      ensures employees == WithoutId(old(employees), EmployeeId, id)
    {
      WithoutIdKeepsUnique(employees, EmployeeId, id);
      employees := WithoutId(employees, EmployeeId, id);
    }

    method MarkAttendance(employeeId: int, date: string, status: string, now: int)
      requires Valid()
      modifies this`attendance
      ensures Valid()
      ensures attendance == MarkAttendanceIn(old(attendance), employeeId, date, status, now)
    {
      attendance := OtherSlots(attendance, employeeId, date);
      attendance := attendance + [Record(employeeId, date, status, now)];
    }

    method AddTask(employeeField: string, title: string, description: string, deadline: string, now: int)
      requires Valid()
      modifies this`tasks
      ensures Valid()
      ensures tasks == AddTaskTo(old(tasks), employeeField, title, description, deadline, now)
    {
      var e := ParseInt(Str(employeeField));
      var t, d := Text.Trim(title), Text.Trim(description);
      if !Truthy(e) || t == "" || d == "" || deadline == "" {
        return;
      }
      var task := Task(Seqs.NextKey(tasks, TaskId), e.n, t, d, deadline, InProgress, now, None, None);
      Seqs.AppendNextKeepsUnique(tasks, TaskId, task);
      tasks := tasks + [task];
    }

    /** The three approval-flow handlers share this find-then-update. */
    method ActOn(taskId: int, action: TaskAction, now: int)
      requires Valid()
      modifies this`tasks
      ensures Valid()
      ensures tasks == ActOnTask(old(tasks), taskId, action, now)
    {
      ActOnTaskTouchesOne(tasks, taskId, action, now);
      var i := Seqs.FindIndex(tasks, (t: Task) => t.id == taskId);
      if i >= 0 {
        tasks := tasks[i := Act(tasks[i], action, now)];
      }
    }

    method MarkTaskComplete(taskId: int, now: int)
      requires Valid()
      modifies this`tasks
      ensures Valid()
      ensures tasks == ActOnTask(old(tasks), taskId, MarkComplete, now)
    {
      ActOn(taskId, MarkComplete, now);
    }

    method ApproveTask(taskId: int, now: int)
      requires Valid()
      modifies this`tasks
      ensures Valid()
      ensures tasks == ActOnTask(old(tasks), taskId, Approve, now)
    {
      ActOn(taskId, Approve, now);
    }

    method RejectTask(taskId: int, now: int)
      requires Valid()
      modifies this`tasks
      ensures Valid()
      ensures tasks == ActOnTask(old(tasks), taskId, Reject, now)
    {
      ActOn(taskId, Reject, now);
    }

    method DeleteTask(taskId: int)
      requires Valid()
      modifies this`tasks
      ensures Valid()
      ensures tasks == WithoutId(old(tasks), TaskId, taskId)
    {
      WithoutIdKeepsUnique(tasks, TaskId, taskId);
      tasks := WithoutId(tasks, TaskId, taskId);
    }

    method RequestLeave(employeeField: string, startDate: Option<int>, endDate: Option<int>,
                        leaveType: string, reason: string, now: int)
      requires Valid()
      modifies this`leaveRequests
      ensures Valid()
      ensures leaveRequests == RequestLeaveIn(old(leaveRequests), employeeField, startDate, endDate, leaveType, reason, now)
    {
      RequestLeaveKeepsWellFormed(leaveRequests, employeeField, startDate, endDate, leaveType, reason, now);
      var e := ParseInt(Str(employeeField));
      var why := Text.Trim(reason);
      if !Truthy(e) || startDate.None? || endDate.None? || why == "" {
        return;
      }
      if startDate.value > endDate.value {
        return;
      }
      var request := LeaveRequest(Seqs.NextKey(leaveRequests, LeaveId), e.n, startDate.value, endDate.value,
                                  leaveType, why, Pending, now, None);
      leaveRequests := leaveRequests + [request];
    }

    method ApproveLeave(leaveId: int, now: int)
      requires Valid()
      modifies this`leaveRequests
      ensures Valid()
      ensures leaveRequests == ReviewLeave(old(leaveRequests), leaveId, Approved, now)
    {
      ReviewLeaveKeepsWellFormed(leaveRequests, leaveId, Approved, now);
      var i := Seqs.FindIndex(leaveRequests, (l: LeaveRequest) => l.id == leaveId);
      if i >= 0 {
        leaveRequests := leaveRequests[i := leaveRequests[i].(status := Approved, reviewedAt := Some(now))];
      }
    }

    method RejectLeave(leaveId: int, now: int)
      requires Valid()
      modifies this`leaveRequests
      ensures Valid()
      ensures leaveRequests == ReviewLeave(old(leaveRequests), leaveId, Rejected, now)
    {
      ReviewLeaveKeepsWellFormed(leaveRequests, leaveId, Rejected, now);
      var i := Seqs.FindIndex(leaveRequests, (l: LeaveRequest) => l.id == leaveId);
      if i >= 0 {
        leaveRequests := leaveRequests[i := leaveRequests[i].(status := Rejected, reviewedAt := Some(now))];
      }
    }

    method DeleteLeave(leaveId: int)
      requires Valid()
      modifies this`leaveRequests
      ensures Valid()
      ensures leaveRequests == WithoutId(old(leaveRequests), LeaveId, leaveId)
    {
      WithoutIdKeepsUnique(leaveRequests, LeaveId, leaveId);
      var r := WithoutId(leaveRequests, LeaveId, leaveId);
      assert forall i :: 0 <= i < |r| ==> r[i].startDate <= r[i].endDate by {
        forall i | 0 <= i < |r| ensures r[i].startDate <= r[i].endDate {
          assert r[i] in leaveRequests;
        }
      }
      leaveRequests := r;
    }
  }
}

/** The `/api/tasks` routes: the listing that first reopens recurring tasks
    completed on an earlier day, get by id and by employee, create with its
    defaults, the `action: 'complete'` / direct-status update, and delete. */
module Tasks {
  import opened Maybe
  import opened Js
  import opened Http
  import Seqs

  /** A task. Dates (`deadline`, `lastCompletedDate`) are day numbers, instants
      are milliseconds. `isRecurring` keeps the body value `isRecurring || false`
      and is read through its truthiness. */
  datatype Task = Task(
    id: int,
    employeeId: Val,
    title: string,
    description: string,
    deadline: int,
    status: string,
    isRecurring: Val,
    lastCompletedDate: Option<int>,
    createdAt: int,
    completedAt: Option<int>,
    approvedAt: Option<int>)

  function TaskId(t: Task): int { t.id }
  function TaskEmployee(t: Task): Val { t.employeeId }

  const InProgress: string := "In Progress"
  const Completed: string := "Completed"
  const NotFoundMessage: string := "Task not found"
  const MissingFields: string := "Required fields are missing"
  const DeletedMessage: string := "Task deleted successfully"

  /** A completed recurring task whose completion day is not today. */
  predicate NeedsReset(t: Task, today: int) {
    Truthy(t.isRecurring) && t.status == Completed && t.lastCompletedDate.Some? && t.lastCompletedDate.value != today
  }

  /** One step of the listing's `forEach`. */
  function ResetTask(t: Task, today: int): (r: Task)
    ensures NeedsReset(t, today) ==> r == t.(status := InProgress)
    ensures !NeedsReset(t, today) ==> r == t
  {
    if NeedsReset(t, today) then t.(status := InProgress) else t
  }

  /** The task list after the listing's `forEach`: every task that needs a reset
      is back "In Progress", every other task is untouched. */
  function ResetRecurring(tasks: seq<Task>, today: int): (r: seq<Task>)
    ensures |r| == |tasks|
    ensures forall i :: 0 <= i < |tasks| && NeedsReset(tasks[i], today) ==> r[i] == tasks[i].(status := InProgress)
    ensures forall i :: 0 <= i < |tasks| && !NeedsReset(tasks[i], today) ==> r[i] == tasks[i]
  {
    seq(|tasks|, i requires 0 <= i < |tasks| => ResetTask(tasks[i], today))
  }

  /** `status ? tasks.filter(t => t.status === status) : tasks`. */
  function WithStatus(tasks: seq<Task>, status: string): (r: seq<Task>)
    ensures status == "" ==> r == tasks
    ensures status != "" ==> forall i :: 0 <= i < |r| ==> r[i] in tasks && r[i].status == status
    ensures status != "" ==> forall i :: 0 <= i < |tasks| && tasks[i].status == status ==> tasks[i] in r
  {
    if status == "" then tasks else Seqs.Filter(tasks, (t: Task) => t.status == status)
  }

  /** `GET /:id`. */
  function Get(tasks: seq<Task>, key: Val): (r: Outcome<Task>)
    ensures r.Ok? || r == NotFound(NotFoundMessage)
    ensures r.Ok? <==> exists j :: 0 <= j < |tasks| && HasKey(tasks[j].id, key)
    ensures r.Ok? ==> r.value in tasks && HasKey(r.value.id, key)
  {
    FindById(tasks, TaskId, key, NotFoundMessage)
  }

  /** `GET /employee/:id`. */
  function ListByEmployee(tasks: seq<Task>, key: Val): (r: seq<Task>)
    ensures forall i :: 0 <= i < |r| ==> r[i] in tasks && StrictEq(r[i].employeeId, key)
    ensures forall i :: 0 <= i < |tasks| && StrictEq(tasks[i].employeeId, key) ==> tasks[i] in r
  {
    ByEmployee(tasks, TaskEmployee, key)
  }

  /** The body of a create request; `deadline` is `None` when absent. */
  datatype TaskBody = TaskBody(employeeId: Val, title: string, description: string, deadline: Option<int>, isRecurring: Val)

  /** `POST /`. */
  function Create(tasks: seq<Task>, body: TaskBody, today: int, now: int): (r: Outcome<Task>)
    ensures r.Ok? || r == BadRequest(MissingFields)
    ensures r.BadRequest? <==> !Truthy(body.employeeId) || body.title == "" || body.description == ""
    ensures r.Ok? ==> forall j :: 0 <= j < |tasks| ==> tasks[j].id < r.value.id
    ensures r.Ok? ==> var t := r.value;
      && t.id == Seqs.NextKey(tasks, TaskId)
      && t.employeeId == ParseInt(body.employeeId)
      && t.title == body.title && t.description == body.description
      && t.deadline == (if body.deadline.Some? then body.deadline.value else today)
      && t.status == InProgress
      && Truthy(t.isRecurring) == Truthy(body.isRecurring)
      && t.isRecurring == Or(body.isRecurring, Bool(false))
      && t.lastCompletedDate == None && t.createdAt == now && t.completedAt == None && t.approvedAt == None
  {
    if !Truthy(body.employeeId) || body.title == "" || body.description == "" then BadRequest(MissingFields)
    else
      Ok(Task(Seqs.NextKey(tasks, TaskId), ParseInt(body.employeeId), body.title, body.description,
              body.deadline.GetOr(today), InProgress, Or(body.isRecurring, Bool(false)), None, now, None, None))
  }

  /** The body of an update request: `status` and `action`, "" when absent. */
  datatype TaskUpdate = TaskUpdate(status: string, action: string)

  /** `PUT /:id`: the task that replaces the one found. `action` "complete"
      records the completion (and, for a recurring task, the day); otherwise a
      non-empty `status` is written as given; otherwise nothing changes. */
  function Update(tasks: seq<Task>, key: Val, body: TaskUpdate, today: int, now: int): (r: Outcome<Task>)
    ensures r.Ok? || r == NotFound(NotFoundMessage)
    ensures r.NotFound? <==> IndexOfKey(tasks, TaskId, key) < 0
    ensures r.Ok? ==> var t := tasks[IndexOfKey(tasks, TaskId, key)];
      && (body.action == "complete" ==>
            && r.value.status == Completed
            && r.value.completedAt == Some(now)
            && r.value.lastCompletedDate == (if Truthy(t.isRecurring) then Some(today) else t.lastCompletedDate)
            && r.value == t.(status := r.value.status, completedAt := r.value.completedAt,
                             lastCompletedDate := r.value.lastCompletedDate))
      && (body.action != "complete" && body.status != "" ==> r.value == t.(status := body.status))
      && (body.action != "complete" && body.status == "" ==> r.value == t)
  {
    var i := IndexOfKey(tasks, TaskId, key);
    if i < 0 then NotFound(NotFoundMessage)
    else
      var t := tasks[i];
      if body.action == "complete" then
        if Truthy(t.isRecurring) then Ok(t.(status := Completed, lastCompletedDate := Some(today), completedAt := Some(now)))
        else Ok(t.(status := Completed, completedAt := Some(now)))
      else if body.status != "" then Ok(t.(status := body.status))
      else Ok(t)
  }

  /** `DELETE /:id`. */
  function Delete(tasks: seq<Task>, key: Val): (r: Reply<seq<Task>, string>)
    ensures r.outcome == Ok(DeletedMessage) || r.outcome == NotFound(NotFoundMessage)
    ensures r.outcome.NotFound? <==> forall j :: 0 <= j < |tasks| ==> !HasKey(tasks[j].id, key)
    ensures r.outcome.NotFound? ==> r.state == tasks
  {
    DeleteById(tasks, TaskId, key, NotFoundMessage, DeletedMessage)
  }

  /** The collection invariant of `tasks`: unique ids. */
  predicate Valid(tasks: seq<Task>) {
    Seqs.UniqueKeys(tasks, TaskId)
  }

  /** The reset touches only statuses: ids, and so the invariant, are kept. */
  lemma ResetKeepsValid(tasks: seq<Task>, today: int)
    requires Valid(tasks)
    ensures Valid(ResetRecurring(tasks, today))
    ensures forall i :: 0 <= i < |tasks| ==> ResetRecurring(tasks, today)[i].id == tasks[i].id
  {
    var r := ResetRecurring(tasks, today);
    assert forall i :: 0 <= i < |tasks| ==> r[i].id == tasks[i].id;
  }

  /** Listing twice on the same day resets nothing more. */
  lemma ResetIdempotent(tasks: seq<Task>, today: int)
    ensures ResetRecurring(ResetRecurring(tasks, today), today) == ResetRecurring(tasks, today)
  {
    var r := ResetRecurring(tasks, today);
    assert forall i :: 0 <= i < |r| ==> !NeedsReset(r[i], today);
  }

  /** After the reset, no task is a completed recurring task from an earlier day. */
  lemma ResetLeavesNothingStale(tasks: seq<Task>, today: int)
    ensures forall i :: 0 <= i < |tasks| ==> !NeedsReset(ResetRecurring(tasks, today)[i], today)
  {
    var r := ResetRecurring(tasks, today);
    forall i | 0 <= i < |tasks| ensures !NeedsReset(r[i], today) {
      if NeedsReset(tasks[i], today) {
        assert r[i].status == InProgress;
      }
    }
  }

  /** A recurring task completed today survives a listing on the same day, and
      is reopened by the first listing on any other day. */
  lemma CompletedTodayResetsTomorrow(tasks: seq<Task>, key: Val, today: int, now: int, later: int)
    requires Update(tasks, key, TaskUpdate("", "complete"), today, now).Ok?
    requires Truthy(tasks[IndexOfKey(tasks, TaskId, key)].isRecurring)
    requires later != today
    ensures var t := Update(tasks, key, TaskUpdate("", "complete"), today, now).value;
      ResetTask(t, today) == t && ResetTask(t, later).status == InProgress
  {
  }

  /** A task completed without being recurring is never reopened. */
  lemma NonRecurringStaysCompleted(tasks: seq<Task>, key: Val, today: int, now: int, later: int)
    requires Update(tasks, key, TaskUpdate("", "complete"), today, now).Ok?
    requires !Truthy(tasks[IndexOfKey(tasks, TaskId, key)].isRecurring)
    ensures var t := Update(tasks, key, TaskUpdate("", "complete"), today, now).value;
      ResetTask(t, later) == t && t.status == Completed
  {
  }

  /** Actions other than "complete" without a status, such as "approve" and
      "reject", leave the task as it was. */
  lemma OtherActionsAreNoOps(tasks: seq<Task>, key: Val, action: string, today: int, now: int)
    requires action != "complete"
    requires IndexOfKey(tasks, TaskId, key) >= 0
    ensures Update(tasks, key, TaskUpdate("", action), today, now) == Ok(tasks[IndexOfKey(tasks, TaskId, key)])
  {
  }

  /** A created task can be fetched by its id; an update keeps ids unique. */
  lemma CreateThenGet(tasks: seq<Task>, body: TaskBody, today: int, now: int)
    requires Valid(tasks)
    requires Create(tasks, body, today, now).Ok?
    ensures var t := Create(tasks, body, today, now).value;
      Valid(tasks + [t]) && Get(tasks + [t], Num(t.id)) == Ok(t)
  {
    var t := Create(tasks, body, today, now).value;
    Seqs.AppendNextKeepsUnique(tasks, TaskId, t);
    IndexOfOwnKey(tasks + [t], TaskId, |tasks|);
  }

  lemma UpdateKeepsValid(tasks: seq<Task>, key: Val, body: TaskUpdate, today: int, now: int)
    requires Valid(tasks)
    requires Update(tasks, key, body, today, now).Ok?
    ensures Valid(tasks[IndexOfKey(tasks, TaskId, key) := Update(tasks, key, body, today, now).value])
  {
    var i := IndexOfKey(tasks, TaskId, key);
    Seqs.UpdateKeepsUnique(tasks, TaskId, i, Update(tasks, key, body, today, now).value);
  }

  lemma DeleteKeepsValid(tasks: seq<Task>, key: Val)
    requires Valid(tasks)
    ensures Valid(Delete(tasks, key).state) && Get(Delete(tasks, key).state, key).NotFound?
  {
    DeleteRemovesExactlyOne(tasks, TaskId, key, NotFoundMessage, DeletedMessage);
  }
}

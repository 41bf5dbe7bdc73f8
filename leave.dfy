/** The `/api/leave` routes: list with an optional status filter, get by id
    and by employee, create with validation, the approve/reject review with
    its monthly balance reset, balance check and deduction, and delete. */
module Leave {
  import opened Maybe
  import opened Js
  import opened Http
  import Seqs
  import Calendar
  import opened Employees

  /** A leave request. `startDate` and `endDate` are day numbers; instants are
      milliseconds. */
  datatype LeaveRequest = LeaveRequest(
    id: int,
    employeeId: Val,
    startDate: int,
    endDate: int,
    leaveType: string,
    reason: string,
    status: string,
    requestedAt: int,
    reviewedAt: Option<int>)

  function RequestId(l: LeaveRequest): int { l.id }
  function RequestEmployee(l: LeaveRequest): Val { l.employeeId }

  const Pending: string := "Pending"
  const Approved: string := "Approved"
  const Rejected: string := "Rejected"
  const NotFoundMessage: string := "Leave request not found"
  const MissingFields: string := "All fields are required"
  const BadRange: string := "End date must be after start date"
  const Insufficient: string := "Insufficient leave balance"
  const DeletedMessage: string := "Leave request deleted successfully"

  /** `status ? leaveRequests.filter(l => l.status === status) : leaveRequests`. */
  function List(requests: seq<LeaveRequest>, status: string): (r: seq<LeaveRequest>)
    ensures status == "" ==> r == requests
    ensures status != "" ==> forall i :: 0 <= i < |r| ==> r[i] in requests && r[i].status == status
    ensures status != "" ==> forall i :: 0 <= i < |requests| && requests[i].status == status ==> requests[i] in r
  {
    if status == "" then requests else Seqs.Filter(requests, (l: LeaveRequest) => l.status == status)
  }

  /** `GET /:id`. */
  function Get(requests: seq<LeaveRequest>, key: Val): (r: Outcome<LeaveRequest>)
    ensures r.Ok? || r == NotFound(NotFoundMessage)
    ensures r.Ok? <==> exists j :: 0 <= j < |requests| && HasKey(requests[j].id, key)
    ensures r.Ok? ==> r.value in requests && HasKey(r.value.id, key)
  {
    FindById(requests, RequestId, key, NotFoundMessage)
  }

  /** `GET /employee/:id`. */
  function ListByEmployee(requests: seq<LeaveRequest>, key: Val): (r: seq<LeaveRequest>)
    ensures forall i :: 0 <= i < |r| ==> r[i] in requests && StrictEq(r[i].employeeId, key)
    ensures forall i :: 0 <= i < |requests| && StrictEq(requests[i].employeeId, key) ==> requests[i] in r
  {
    ByEmployee(requests, RequestEmployee, key)
  }

  /** The body of a create request. Dates are `None` when absent. */
  datatype LeaveBody = LeaveBody(employeeId: Val, startDate: Option<int>, endDate: Option<int>, leaveType: string, reason: string)

  /** `POST /`: 400 when a field is falsy or the range is reversed, otherwise
      the new pending request to append. */
  function Create(requests: seq<LeaveRequest>, body: LeaveBody, now: int): (r: Outcome<LeaveRequest>)
    ensures r.Ok? || r == BadRequest(MissingFields) || r == BadRequest(BadRange)
    ensures r == BadRequest(MissingFields) <==>
      !Truthy(body.employeeId) || body.startDate.None? || body.endDate.None? || body.leaveType == "" || body.reason == ""
    ensures r == BadRequest(BadRange) <==>
      r != BadRequest(MissingFields) && body.startDate.value > body.endDate.value
    ensures r.Ok? ==> var l := r.value;
      && l.id == Seqs.NextKey(requests, RequestId)
      && (forall j :: 0 <= j < |requests| ==> requests[j].id < l.id)
      && l.employeeId == ParseInt(body.employeeId)
      && l.startDate == body.startDate.value && l.endDate == body.endDate.value && l.startDate <= l.endDate
      && l.leaveType == body.leaveType && l.reason == body.reason
      && l.status == Pending && l.requestedAt == now && l.reviewedAt == None
  {
    if !Truthy(body.employeeId) || body.startDate.None? || body.endDate.None? || body.leaveType == "" || body.reason == "" then
      BadRequest(MissingFields)
    else if body.startDate.value > body.endDate.value then
      BadRequest(BadRange)
    else
      Ok(LeaveRequest(Seqs.NextKey(requests, RequestId), ParseInt(body.employeeId), body.startDate.value,
                      body.endDate.value, body.leaveType, body.reason, Pending, now, None))
  }

  /** `Math.ceil(a / b)` for a positive `b`. */
  function CeilDiv(a: int, b: int): (q: int)
    requires b > 0
    ensures (q - 1) * b < a <= q * b
  {
    -((-a) / b)
  }

  /** `Math.ceil((endDate - startDate) / msPerDay) + 1`: both dates parse to
      midnight UTC, so the difference is a whole number of days. */
  function LeaveDays(l: LeaveRequest): int {
    CeilDiv((l.endDate - l.startDate) * Calendar.MsPerDay, Calendar.MsPerDay) + 1
  }

  /** The day count is the inclusive span of the request. */
  lemma LeaveDaysIsSpan(l: LeaveRequest)
    ensures LeaveDays(l) == l.endDate - l.startDate + 1
  {
    var a := (l.endDate - l.startDate) * Calendar.MsPerDay;
    var q := CeilDiv(a, Calendar.MsPerDay);
    assert (q - 1) * Calendar.MsPerDay < a <= q * Calendar.MsPerDay;
  }

  /** The review's month test: the instant `lastBalanceReset || now` lies in
      another month, or another year, than `now`. */
  predicate NeedsBalanceReset(e: Employee, now: int) {
    Calendar.YearMonthOf(e.lastBalanceReset.GetOr(now)) != Calendar.YearMonthOf(now)
  }

  /** The employee after the review's monthly reset. */
  function AfterReset(e: Employee, now: int): (r: Employee)
    ensures NeedsBalanceReset(e, now) ==> r == e.(leaveBalance := DefaultLeaveBalance, lastBalanceReset := Some(now))
    ensures !NeedsBalanceReset(e, now) ==> r == e
  {
    if NeedsBalanceReset(e, now) then e.(leaveBalance := DefaultLeaveBalance, lastBalanceReset := Some(now)) else e
  }

  /** What a review leaves behind: both collections it may write, and its answer. */
  datatype Review = Review(requests: seq<LeaveRequest>, employees: seq<Employee>, outcome: Outcome<LeaveRequest>)

  /** The request with the review recorded. */
  function Decided(l: LeaveRequest, status: string, now: int): LeaveRequest {
    l.(status := status, reviewedAt := Some(now))
  }

  /** `PUT /:id` with body `{ status }`. A status other than Approved or
      Rejected changes nothing. Approval looks up the employee by
      `e.id === employeeId`; when one exists it is first reset on a new month
      (a reset that stays even when the check then fails), then its balance is
      checked against the day count and reduced by it. */
  function ReviewRequest(requests: seq<LeaveRequest>, employees: seq<Employee>, key: Val, status: string, now: int)
    : (r: Review)
    ensures r.outcome.Ok? || r.outcome == NotFound(NotFoundMessage) || r.outcome == BadRequest(Insufficient)
    ensures r.outcome.NotFound? <==> IndexOfKey(requests, RequestId, key) < 0
    ensures r.outcome.NotFound? ==> r.requests == requests && r.employees == employees
    ensures r.outcome.BadRequest? ==> r.requests == requests && status == Approved
    ensures r.outcome.Ok? ==> var i := IndexOfKey(requests, RequestId, key);
      if status == Approved || status == Rejected then
        r.outcome.value == Decided(requests[i], status, now) && r.requests == requests[i := r.outcome.value]
      else
        r.outcome.value == requests[i] && r.requests == requests && r.employees == employees
    ensures status != Approved ==> r.employees == employees
    ensures |r.employees| == |employees|
  {
    var i := IndexOfKey(requests, RequestId, key);
    if i < 0 then Review(requests, employees, NotFound(NotFoundMessage))
    else if status != Approved && status != Rejected then Review(requests, employees, Ok(requests[i]))
    else
      var l := requests[i];
      var decided := Decided(l, status, now);
      var j := if status == Approved then IndexOfKey(employees, EmployeeId, l.employeeId) else -1;
      if j < 0 then Review(requests[i := decided], employees, Ok(decided))
      else
        var e := AfterReset(employees[j], now);
        var days := LeaveDays(l);
        if e.leaveBalance < days then Review(requests, employees[j := e], BadRequest(Insufficient))
        else
          var remaining := (if e.leaveBalance != 0 then e.leaveBalance else DefaultLeaveBalance) - days;
          Review(requests[i := decided], employees[j := e.(leaveBalance := remaining)], Ok(decided))
  }

  /** A review changes at most one employee: the one the approved request names. */
  lemma ReviewTouchesOnlyNamedEmployee(requests: seq<LeaveRequest>, employees: seq<Employee>, key: Val, status: string, now: int)
    ensures var r := ReviewRequest(requests, employees, key, status, now);
      forall k :: 0 <= k < |employees| && r.employees[k] != employees[k] ==>
        status == Approved && IndexOfKey(requests, RequestId, key) >= 0 &&
        k == IndexOfKey(employees, EmployeeId, requests[IndexOfKey(requests, RequestId, key)].employeeId)
  {
  }

  /** `DELETE /:id`. */
  function Delete(requests: seq<LeaveRequest>, key: Val): (r: Reply<seq<LeaveRequest>, string>)
    ensures r.outcome == Ok(DeletedMessage) || r.outcome == NotFound(NotFoundMessage)
    ensures r.outcome.NotFound? <==> forall j :: 0 <= j < |requests| ==> !HasKey(requests[j].id, key)
    ensures r.outcome.NotFound? ==> r.state == requests
  {
    DeleteById(requests, RequestId, key, NotFoundMessage, DeletedMessage)
  }

  /** The collection invariant of `leaveRequests`: unique ids and ranges in order. */
  predicate Valid(requests: seq<LeaveRequest>) {
    && Seqs.UniqueKeys(requests, RequestId)
    && forall i :: 0 <= i < |requests| ==> requests[i].startDate <= requests[i].endDate
  }

  lemma CreateKeepsValid(requests: seq<LeaveRequest>, body: LeaveBody, now: int)
    requires Valid(requests)
    requires Create(requests, body, now).Ok?
    ensures var l := Create(requests, body, now).value;
      Valid(requests + [l]) && Get(requests + [l], Num(l.id)) == Ok(l)
  {
    var l := Create(requests, body, now).value;
    Seqs.AppendNextKeepsUnique(requests, RequestId, l);
    IndexOfOwnKey(requests + [l], RequestId, |requests|);
  }

  /** A review keeps both invariants: ids and ranges of the requests, and the
      ids and non-negative balances of the employees. */
  lemma ReviewKeepsValid(requests: seq<LeaveRequest>, employees: seq<Employee>, key: Val, status: string, now: int)
    requires Valid(requests) && Employees.Valid(employees)
    ensures var r := ReviewRequest(requests, employees, key, status, now);
      Valid(r.requests) && Employees.Valid(r.employees)
  {
    var r := ReviewRequest(requests, employees, key, status, now);
    var i := IndexOfKey(requests, RequestId, key);
    if i >= 0 && (status == Approved || status == Rejected) {
      var l := requests[i];
      Seqs.UpdateKeepsUnique(requests, RequestId, i, Decided(l, status, now));
      LeaveDaysIsSpan(l);
      var j := if status == Approved then IndexOfKey(employees, EmployeeId, l.employeeId) else -1;
      if j >= 0 {
        var e := AfterReset(employees[j], now);
        Seqs.UpdateKeepsUnique(employees, EmployeeId, j, e);
        if e.leaveBalance >= LeaveDays(l) {
          Seqs.UpdateKeepsUnique(employees, EmployeeId, j, e.(leaveBalance := e.leaveBalance - LeaveDays(l)));
        }
      }
    }
  }

  /** A successful approval of an employee's request deducts exactly the
      inclusive day span from the balance left by the monthly reset; an
      insufficient balance leaves the request as it was. */
  lemma ApprovalDeductsSpan(requests: seq<LeaveRequest>, employees: seq<Employee>, key: Val, now: int)
    requires Valid(requests) && Employees.Valid(employees)
    requires IndexOfKey(requests, RequestId, key) >= 0
    requires IndexOfKey(employees, EmployeeId, requests[IndexOfKey(requests, RequestId, key)].employeeId) >= 0
    ensures var i := IndexOfKey(requests, RequestId, key);
      var l := requests[i];
      var j := IndexOfKey(employees, EmployeeId, l.employeeId);
      var before := AfterReset(employees[j], now).leaveBalance;
      var r := ReviewRequest(requests, employees, key, Approved, now);
      && (r.outcome.Ok? <==> before >= l.endDate - l.startDate + 1)
      && (r.outcome.Ok? ==> r.employees[j].leaveBalance == before - (l.endDate - l.startDate + 1) >= 0)
      && (r.outcome.BadRequest? ==> r.requests[i] == l && r.employees[j] == AfterReset(employees[j], now))
      && (r.outcome.Ok? ==>
            r.employees == employees[j := AfterReset(employees[j], now).(leaveBalance := before - (l.endDate - l.startDate + 1))])
      && (r.outcome.BadRequest? ==> r.requests == requests && r.employees == employees[j := AfterReset(employees[j], now)])
  {
    var i := IndexOfKey(requests, RequestId, key);
    LeaveDaysIsSpan(requests[i]);
  }

  /** A rejection changes no balance and records the review. */
  lemma RejectionKeepsBalances(requests: seq<LeaveRequest>, employees: seq<Employee>, key: Val, now: int)
    requires IndexOfKey(requests, RequestId, key) >= 0
    ensures var r := ReviewRequest(requests, employees, key, Rejected, now);
      var i := IndexOfKey(requests, RequestId, key);
      r.employees == employees && r.outcome == Ok(Decided(requests[i], Rejected, now))
  {
  }

  /** On a new month the balance an approval works from is 2, and the reset
      instant becomes now, even when the approval then fails. */
  lemma NewMonthResetsBalance(requests: seq<LeaveRequest>, employees: seq<Employee>, key: Val, now: int)
    requires IndexOfKey(requests, RequestId, key) >= 0
    requires var l := requests[IndexOfKey(requests, RequestId, key)];
      var j := IndexOfKey(employees, EmployeeId, l.employeeId);
      j >= 0 && NeedsBalanceReset(employees[j], now)
    ensures var l := requests[IndexOfKey(requests, RequestId, key)];
      var j := IndexOfKey(employees, EmployeeId, l.employeeId);
      var r := ReviewRequest(requests, employees, key, Approved, now);
      && r.employees[j].lastBalanceReset == Some(now)
      && r.employees[j].leaveBalance == (if r.outcome.Ok? then DefaultLeaveBalance - LeaveDays(l) else DefaultLeaveBalance)
  {
  }

  /** Approving a request whose employee id matches no employee skips the
      balance check altogether. */
  lemma UnknownEmployeeIsApproved(requests: seq<LeaveRequest>, employees: seq<Employee>, key: Val, now: int)
    requires IndexOfKey(requests, RequestId, key) >= 0
    requires IndexOfKey(employees, EmployeeId, requests[IndexOfKey(requests, RequestId, key)].employeeId) < 0
    ensures ReviewRequest(requests, employees, key, Approved, now).outcome.Ok?
    ensures ReviewRequest(requests, employees, key, Approved, now).employees == employees
  {
  }

  /** Every successful approval leaves a non-negative balance, so the balance
      never goes negative. */
  lemma BalanceNeverNegative(requests: seq<LeaveRequest>, employees: seq<Employee>, key: Val, status: string, now: int)
    requires Valid(requests) && Employees.Valid(employees)
    ensures BalancesNonNegative(ReviewRequest(requests, employees, key, status, now).employees)
  {
    ReviewKeepsValid(requests, employees, key, status, now);
  }

  lemma DeleteKeepsValid(requests: seq<LeaveRequest>, key: Val)
    requires Valid(requests)
    ensures Valid(Delete(requests, key).state) && Get(Delete(requests, key).state, key).NotFound?
  {
    DeleteRemovesExactlyOne(requests, RequestId, key, NotFoundMessage, DeletedMessage);
    var r := Delete(requests, key);
    forall k | 0 <= k < |r.state| ensures r.state[k].startDate <= r.state[k].endDate {
      assert r.state[k] in requests;
    }
  }

  /** A fresh employee (balance 2, reset now) who takes two days of leave has
      nothing left, so a further one-day request in the same month is refused
      and stays pending. */
  lemma TwoDaysExhaustBalance(e: Employee, first: LeaveRequest, second: LeaveRequest, now: int)
    requires e.leaveBalance == DefaultLeaveBalance && e.lastBalanceReset == Some(now)
    requires first.id == 1 && second.id == 2 && first.employeeId == Num(e.id) && second.employeeId == Num(e.id)
    requires first.endDate == first.startDate + 1 && second.endDate == second.startDate
    ensures var r1 := ReviewRequest([first, second], [e], Num(1), Approved, now);
      && r1.outcome.Ok?
      && r1.employees[0].leaveBalance == 0
      && var r2 := ReviewRequest(r1.requests, r1.employees, Num(2), Approved, now);
      && r2.outcome == BadRequest(Insufficient)
      && r2.requests[1].status == second.status
  {
    LeaveDaysIsSpan(first);
    LeaveDaysIsSpan(second);
    var requests := [first, second];
    assert IndexOfKey(requests, RequestId, Num(1)) == 0;
    assert IndexOfKey([e], EmployeeId, Num(e.id)) == 0;
    var r1 := ReviewRequest(requests, [e], Num(1), Approved, now);
    assert r1.employees == [e.(leaveBalance := 0)];
    assert r1.requests[1] == second;
    assert IndexOfKey(r1.requests, RequestId, Num(2)) == 1 by {
      assert r1.requests[0].id == 1 && r1.requests[1].id == 2;
    }
    assert IndexOfKey(r1.employees, EmployeeId, Num(e.id)) == 0;
  }
}

/** The `/api/employees` routes: list, get by id, create with the default
    leave balance, the `||`-coalescing update, and delete. */
module Employees {
  import opened Maybe
  import opened Js
  import opened Http
  import Seqs

  /** An employee. `leaveBalance` 0 also stands for a missing balance: the
      routes only read it through `|| 0` and `|| 2`, which treat both alike.
      `lastBalanceReset` is an instant, `None` when missing. */
  datatype Employee = Employee(
    id: int,
    name: string,
    email: string,
    position: string,
    leaveBalance: int,
    lastBalanceReset: Option<int>)

  function EmployeeId(e: Employee): int { e.id }

  const NotFoundMessage: string := "Employee not found"
  const MissingFields: string := "All fields are required"
  const DeletedMessage: string := "Employee deleted successfully"

  /** The balance every new employee starts with, and the monthly reset value. */
  const DefaultLeaveBalance: int := 2

  /** The `name`, `email` and `position` of a request body; "" when absent. */
  datatype EmployeeBody = EmployeeBody(name: string, email: string, position: string)

  /** `GET /:id`. */
  function Get(employees: seq<Employee>, key: Val): (r: Outcome<Employee>)
    ensures r.Ok? || r == NotFound(NotFoundMessage)
    ensures r.Ok? <==> exists j :: 0 <= j < |employees| && HasKey(employees[j].id, key)
    ensures r.Ok? ==> r.value in employees && HasKey(r.value.id, key)
  {
    FindById(employees, EmployeeId, key, NotFoundMessage)
  }

  /** `POST /`: the employee to append, or 400 when a field is falsy. */
  function Create(employees: seq<Employee>, body: EmployeeBody, now: int): (r: Outcome<Employee>)
    ensures r.Ok? || r == BadRequest(MissingFields)
    ensures r.BadRequest? <==> body.name == "" || body.email == "" || body.position == ""
    ensures r.Ok? ==> r.value.id == Seqs.NextKey(employees, EmployeeId)
    ensures r.Ok? ==> forall j :: 0 <= j < |employees| ==> employees[j].id < r.value.id
    ensures r.Ok? ==> r.value.name == body.name && r.value.email == body.email && r.value.position == body.position
    ensures r.Ok? ==> r.value.leaveBalance == DefaultLeaveBalance && r.value.lastBalanceReset == Some(now)
  {
    if body.name == "" || body.email == "" || body.position == "" then BadRequest(MissingFields)
    else Ok(Employee(Seqs.NextKey(employees, EmployeeId), body.name, body.email, body.position, DefaultLeaveBalance, Some(now)))
  }

  /** `PUT /:id`: the merged record that replaces the one found. Each of name,
      email and position is overwritten only by a truthy value; everything else
      is spread from the old record. */
  function Update(employees: seq<Employee>, key: Val, body: EmployeeBody): (r: Outcome<Employee>)
    ensures r.Ok? || r == NotFound(NotFoundMessage)
    ensures r.NotFound? <==> IndexOfKey(employees, EmployeeId, key) < 0
    ensures r.Ok? ==> var old_ := employees[IndexOfKey(employees, EmployeeId, key)];
      && r.value.id == old_.id
      && r.value.leaveBalance == old_.leaveBalance
      && r.value.lastBalanceReset == old_.lastBalanceReset
      && r.value.name == (if body.name != "" then body.name else old_.name)
      && r.value.email == (if body.email != "" then body.email else old_.email)
      && r.value.position == (if body.position != "" then body.position else old_.position)
  {
    var i := IndexOfKey(employees, EmployeeId, key);
    if i < 0 then NotFound(NotFoundMessage)
    else
      var e := employees[i];
      Ok(e.(name := if body.name != "" then body.name else e.name,
            email := if body.email != "" then body.email else e.email,
            position := if body.position != "" then body.position else e.position))
  }

  /** `DELETE /:id`. */
  function Delete(employees: seq<Employee>, key: Val): (r: Reply<seq<Employee>, string>)
    ensures r.outcome == Ok(DeletedMessage) || r.outcome == NotFound(NotFoundMessage)
    ensures r.outcome.NotFound? <==> forall j :: 0 <= j < |employees| ==> !HasKey(employees[j].id, key)
    ensures r.outcome.NotFound? ==> r.state == employees
  {
    DeleteById(employees, EmployeeId, key, NotFoundMessage, DeletedMessage)
  }

  /** No balance is negative. */
  predicate BalancesNonNegative(employees: seq<Employee>) {
    forall j :: 0 <= j < |employees| ==> employees[j].leaveBalance >= 0
  }

  /** The collection invariant of `employees`: unique ids, no negative balance. */
  predicate Valid(employees: seq<Employee>) {
    Seqs.UniqueKeys(employees, EmployeeId) && BalancesNonNegative(employees)
  }

  /** A created employee can be fetched by its id, and the invariant holds after appending it. */
  lemma CreateThenGet(employees: seq<Employee>, body: EmployeeBody, now: int)
    requires Valid(employees)
    requires Create(employees, body, now).Ok?
    ensures var e := Create(employees, body, now).value;
      Valid(employees + [e]) && Get(employees + [e], Num(e.id)) == Ok(e)
  {
    var e := Create(employees, body, now).value;
    Seqs.AppendNextKeepsUnique(employees, EmployeeId, e);
    IndexOfOwnKey(employees + [e], EmployeeId, |employees|);
  }

  /** An update keeps the invariant, and a later get returns the merged record. */
  lemma UpdateThenGet(employees: seq<Employee>, key: Val, body: EmployeeBody)
    requires Valid(employees)
    requires Update(employees, key, body).Ok?
    ensures var i := IndexOfKey(employees, EmployeeId, key);
      var e := Update(employees, key, body).value;
      Valid(employees[i := e]) && Get(employees[i := e], key) == Ok(e)
  {
    var i := IndexOfKey(employees, EmployeeId, key);
    var e := Update(employees, key, body).value;
    Seqs.UpdateKeepsUnique(employees, EmployeeId, i, e);
    IndexOfOwnKey(employees[i := e], EmployeeId, i);
  }

  /** An update whose fields are all empty strings changes nothing. */
  lemma EmptyUpdateIsIdentity(employees: seq<Employee>, key: Val)
    requires Update(employees, key, EmployeeBody("", "", "")).Ok?
    ensures Update(employees, key, EmployeeBody("", "", "")).value
         == employees[IndexOfKey(employees, EmployeeId, key)]
  {
  }

  /** A delete keeps the invariant and leaves no employee with that id. */
  lemma DeleteKeepsValid(employees: seq<Employee>, key: Val)
    requires Valid(employees)
    ensures var r := Delete(employees, key);
      Valid(r.state) && Get(r.state, key).NotFound?
  {
    DeleteRemovesExactlyOne(employees, EmployeeId, key, NotFoundMessage, DeletedMessage);
    var r := Delete(employees, key);
    forall j | 0 <= j < |r.state| ensures r.state[j].leaveBalance >= 0 {
      assert r.state[j] in employees;
    }
  }
}

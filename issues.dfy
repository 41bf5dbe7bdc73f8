/** The `/api/issues` routes. The collection may be missing from an older
    data file: the GETs and the create initialise it to `[]` first, the update
    and delete answer 404 instead. */
module Issues {
  import opened Maybe
  import opened Js
  import opened Http
  import Seqs

  datatype Issue = Issue(
    id: int,
    employeeId: Val,
    title: string,
    description: string,
    priority: string,
    status: string,
    createdAt: int)

  function IssueId(i: Issue): int { i.id }
  function IssueEmployee(i: Issue): Val { i.employeeId }

  const MissingFields: string := "Employee ID, title and description are required"
  const NotFoundMessage: string := "Issue not found"
  const DeletedMessage: string := "Issue deleted successfully"
  const DefaultPriority: string := "medium"
  const Open: string := "Open"

  /** `GET /employee/:id`: initialises the collection; exactly the issues whose
      `employeeId` is `key`. */
  function ListByEmployee(issues: Option<seq<Issue>>, key: Val): (r: Reply<Option<seq<Issue>>, seq<Issue>>)
    ensures r.state == Some(OrEmpty(issues)) && r.outcome.Ok?
    ensures forall i :: 0 <= i < |r.outcome.value| ==> r.outcome.value[i] in OrEmpty(issues) && StrictEq(r.outcome.value[i].employeeId, key)
    ensures forall i :: 0 <= i < |OrEmpty(issues)| && StrictEq(OrEmpty(issues)[i].employeeId, key) ==> OrEmpty(issues)[i] in r.outcome.value
  {
    var all := OrEmpty(issues);
    Reply(Some(all), Ok(ByEmployee(all, IssueEmployee, key)))
  }

  datatype IssueBody = IssueBody(employeeId: Val, title: string, description: string, priority: string)

  /** `POST /`: initialises the collection even when the body is then refused. */
  function Create(issues: Option<seq<Issue>>, body: IssueBody, now: int): (r: Reply<Option<seq<Issue>>, Issue>)
    ensures r.outcome.Ok? || r.outcome == BadRequest(MissingFields)
    ensures r.outcome.BadRequest? <==> !Truthy(body.employeeId) || body.title == "" || body.description == ""
    ensures r.outcome.BadRequest? ==> r.state == Some(OrEmpty(issues))
    ensures r.outcome.Ok? ==> var i := r.outcome.value;
      && r.state == Some(OrEmpty(issues) + [i])
      && i.id == Seqs.NextKey(OrEmpty(issues), IssueId)
      && i.employeeId == ParseInt(body.employeeId)
      && i.title == body.title && i.description == body.description
      && i.priority == (if body.priority != "" then body.priority else DefaultPriority)
      && i.status == Open && i.createdAt == now
  {
    var all := OrEmpty(issues);
    if !Truthy(body.employeeId) || body.title == "" || body.description == "" then
      Reply(Some(all), BadRequest(MissingFields))
    else
      var issue := Issue(Seqs.NextKey(all, IssueId), ParseInt(body.employeeId), body.title, body.description,
                         if body.priority != "" then body.priority else DefaultPriority, Open, now);
      Reply(Some(all + [issue]), Ok(issue))
  }

  /** Where `PUT /:id` and `DELETE /:id` find the issue: -1 when the collection
      is missing or holds no such id. */
  function Locate(issues: Option<seq<Issue>>, key: Val): (i: int)
    ensures issues.None? ==> i == -1
    ensures issues.Some? ==> i == IndexOfKey(issues.value, IssueId, key)
  {
    if issues.None? then -1 else IndexOfKey(issues.value, IssueId, key)
  }

  /** `PUT /:id`: the issue with the new status written only when one is given. */
  function UpdateStatus(issues: Option<seq<Issue>>, key: Val, status: string): (r: Outcome<Issue>)
    ensures r.Ok? || r == NotFound(NotFoundMessage)
    ensures r.NotFound? <==> Locate(issues, key) < 0
    ensures r.Ok? ==> var old_ := issues.value[Locate(issues, key)];
      && (status != "" ==> r.value == old_.(status := status))
      && (status == "" ==> r.value == old_)
  {
    var i := Locate(issues, key);
    if i < 0 then NotFound(NotFoundMessage)
    else if status != "" then Ok(issues.value[i].(status := status))
    else Ok(issues.value[i])
  }

  /** `DELETE /:id`. */
  function Delete(issues: Option<seq<Issue>>, key: Val): (r: Reply<Option<seq<Issue>>, string>)
    ensures r.outcome == Ok(DeletedMessage) || r.outcome == NotFound(NotFoundMessage)
    ensures r.outcome.NotFound? <==> Locate(issues, key) < 0
    ensures r.outcome.NotFound? ==> r.state == issues
    ensures r.outcome.Ok? ==> r.state == Some(Seqs.RemoveAt(issues.value, Locate(issues, key)))
  {
    if issues.None? then Reply(issues, NotFound(NotFoundMessage))
    else
      var d := DeleteById(issues.value, IssueId, key, NotFoundMessage, DeletedMessage);
      Reply(Some(d.state), d.outcome)
  }

  /** The collection invariant of `issues`: when present, unique ids. */
  predicate Valid(issues: Option<seq<Issue>>) {
    issues.Some? ==> Seqs.UniqueKeys(issues.value, IssueId)
  }

  /** A created issue is in the initialised collection, under a fresh id,
      and the collection keeps unique ids. */
  lemma CreateKeepsValid(issues: Option<seq<Issue>>, body: IssueBody, now: int)
    requires Valid(issues)
    ensures var r := Create(issues, body, now);
      && Valid(r.state)
      && (r.outcome.Ok? ==> Locate(r.state, Num(r.outcome.value.id)) == |OrEmpty(issues)|)
  {
    var r := Create(issues, body, now);
    if r.outcome.Ok? {
      Seqs.AppendNextKeepsUnique(OrEmpty(issues), IssueId, r.outcome.value);
      IndexOfOwnKey(r.state.value, IssueId, |OrEmpty(issues)|);
    }
  }

  /** An update changes the status and nothing else, and keeps ids unique. */
  lemma UpdateKeepsValid(issues: Option<seq<Issue>>, key: Val, status: string)
    requires Valid(issues)
    requires UpdateStatus(issues, key, status).Ok?
    ensures var i := Locate(issues, key);
      var u := UpdateStatus(issues, key, status).value;
      && Valid(Some(issues.value[i := u]))
      && u.id == issues.value[i].id && u.employeeId == issues.value[i].employeeId
      && u.title == issues.value[i].title && u.priority == issues.value[i].priority
  {
    var i := Locate(issues, key);
    Seqs.UpdateKeepsUnique(issues.value, IssueId, i, UpdateStatus(issues, key, status).value);
  }

  /** A delete removes exactly that issue. */
  lemma DeleteKeepsValid(issues: Option<seq<Issue>>, key: Val)
    requires Valid(issues)
    ensures var r := Delete(issues, key);
      Valid(r.state) && Locate(r.state, key) < 0
  {
    if issues.Some? {
      DeleteRemovesExactlyOne(issues.value, IssueId, key, NotFoundMessage, DeletedMessage);
    }
  }
}

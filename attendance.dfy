/** The `/api/attendance` routes: list with an optional date filter, list by
    employee, the remove-then-insert "mark", and delete. */
module Attendance {
  import opened Js
  import opened Http
  import Seqs

  /** An attendance record. `employeeId` is whatever `parseInt` made of the
      body value; `date` is the `YYYY-MM-DD` string from the body. */
  datatype AttendanceRecord = AttendanceRecord(
    id: int,
    employeeId: Val,
    date: string,
    status: string,
    markedAt: int)

  function RecordId(a: AttendanceRecord): int { a.id }
  function RecordEmployee(a: AttendanceRecord): Val { a.employeeId }

  const MissingFields: string := "Employee ID, date, and status are required"
  const NotFoundMessage: string := "Attendance record not found"
  const DeletedMessage: string := "Attendance record deleted successfully"

  /** The body of a mark request: the raw `employeeId`, `date` and `status`. */
  datatype MarkBody = MarkBody(employeeId: Val, date: string, status: string)

  /** `GET /?date=`: with a non-empty date, exactly the records of that date, in order. */
  function List(records: seq<AttendanceRecord>, date: string): (r: seq<AttendanceRecord>)
    ensures date == "" ==> r == records
    ensures date != "" ==> forall i :: 0 <= i < |r| ==> r[i] in records && r[i].date == date
    ensures date != "" ==> forall i :: 0 <= i < |records| && records[i].date == date ==> records[i] in r
  {
    if date == "" then records else Seqs.Filter(records, (a: AttendanceRecord) => a.date == date)
  }

  /** `GET /employee/:id`. */
  function ListByEmployee(records: seq<AttendanceRecord>, key: Val): (r: seq<AttendanceRecord>)
    ensures forall i :: 0 <= i < |r| ==> r[i] in records && StrictEq(r[i].employeeId, key)
    ensures forall i :: 0 <= i < |records| && StrictEq(records[i].employeeId, key) ==> records[i] in r
  {
    ByEmployee(records, RecordEmployee, key)
  }

  /** The record is the one a mark for `employeeId` on `date` replaces:
      `a.employeeId === employeeId && a.date === date`, with the raw body value. */
  predicate SameSlot(a: AttendanceRecord, employeeId: Val, date: string) {
    StrictEq(a.employeeId, employeeId) && a.date == date
  }

  /** The records that survive the removal step of a mark. */
  function Remaining(records: seq<AttendanceRecord>, employeeId: Val, date: string): (r: seq<AttendanceRecord>)
    ensures forall i :: 0 <= i < |r| ==> r[i] in records && !SameSlot(r[i], employeeId, date)
    ensures forall i :: 0 <= i < |records| && !SameSlot(records[i], employeeId, date) ==> records[i] in r
  {
    Seqs.Filter(records, (a: AttendanceRecord) => !SameSlot(a, employeeId, date))
  }

  /** `POST /`: drop the records for this employee and date, then append the new
      record, whose id is one more than the largest remaining id. */
  function Mark(records: seq<AttendanceRecord>, body: MarkBody, now: int): (r: Reply<seq<AttendanceRecord>, AttendanceRecord>)
    ensures r.outcome.Ok? || r.outcome == BadRequest(MissingFields)
    ensures r.outcome.BadRequest? <==> !Truthy(body.employeeId) || body.date == "" || body.status == ""
    ensures r.outcome.BadRequest? ==> r.state == records
    ensures r.outcome.Ok? ==>
      var rest := Remaining(records, body.employeeId, body.date);
      && r.state == rest + [r.outcome.value]
      && r.outcome.value.id == Seqs.NextKey(rest, RecordId)
      && r.outcome.value.employeeId == ParseInt(body.employeeId)
      && r.outcome.value.date == body.date
      && r.outcome.value.status == body.status
      && r.outcome.value.markedAt == now
  {
    if !Truthy(body.employeeId) || body.date == "" || body.status == "" then
      Reply(records, BadRequest(MissingFields))
    else
      var rest := Remaining(records, body.employeeId, body.date);
      var record := AttendanceRecord(Seqs.NextKey(rest, RecordId), ParseInt(body.employeeId), body.date, body.status, now);
      Reply(rest + [record], Ok(record))
  }

  /** `DELETE /:id`. */
  function Delete(records: seq<AttendanceRecord>, key: Val): (r: Reply<seq<AttendanceRecord>, string>)
    ensures r.outcome == Ok(DeletedMessage) || r.outcome == NotFound(NotFoundMessage)
    ensures r.outcome.NotFound? <==> forall j :: 0 <= j < |records| ==> !HasKey(records[j].id, key)
    ensures r.outcome.NotFound? ==> r.state == records
  {
    DeleteById(records, RecordId, key, NotFoundMessage, DeletedMessage)
  }

  /** The collection invariant of `attendance`: unique ids. */
  predicate Valid(records: seq<AttendanceRecord>) {
    Seqs.UniqueKeys(records, RecordId)
  }

  /** Marking and deleting keep ids unique. */
  lemma MarkKeepsValid(records: seq<AttendanceRecord>, body: MarkBody, now: int)
    requires Valid(records)
    ensures Valid(Mark(records, body, now).state)
  {
    var r := Mark(records, body, now);
    if r.outcome.Ok? {
      var rest := Remaining(records, body.employeeId, body.date);
      Seqs.FilterKeepsUnique(records, RecordId, (a: AttendanceRecord) => !SameSlot(a, body.employeeId, body.date));
      Seqs.AppendNextKeepsUnique(rest, RecordId, r.outcome.value);
    }
  }

  lemma DeleteKeepsValid(records: seq<AttendanceRecord>, key: Val)
    requires Valid(records)
    ensures Valid(Delete(records, key).state)
    ensures forall j :: 0 <= j < |Delete(records, key).state| ==> !HasKey(Delete(records, key).state[j].id, key)
  {
    DeleteRemovesExactlyOne(records, RecordId, key, NotFoundMessage, DeletedMessage);
  }

  /** With an integer employee id, marking leaves exactly one record for that
      employee and date, and it carries the new status; every record for
      another employee or date is kept. */
  lemma MarkIsUpsert(records: seq<AttendanceRecord>, n: int, date: string, status: string, now: int)
    requires n != 0 && date != "" && status != ""
    ensures var r := Mark(records, MarkBody(Num(n), date, status), now);
      && r.outcome.Ok?
      && (forall i :: 0 <= i < |r.state| && SameSlot(r.state[i], Num(n), date) ==> i == |r.state| - 1)
      && SameSlot(r.state[|r.state| - 1], Num(n), date)
      && r.state[|r.state| - 1].status == status
      && (forall i :: 0 <= i < |records| && !SameSlot(records[i], Num(n), date) ==> records[i] in r.state)
  {
    var r := Mark(records, MarkBody(Num(n), date, status), now);
    var rest := Remaining(records, Num(n), date);
    assert r.state == rest + [r.outcome.value];
  }

  /** Stored employee ids are what `parseInt` answers: numbers or NaN, never strings. */
  predicate ParsedIds(records: seq<AttendanceRecord>) {
    forall i :: 0 <= i < |records| ==> !records[i].employeeId.Str?
  }

  /** The removal compares the raw body value with the `parseInt`'d stored ones,
      so a mark whose id arrives as a string removes nothing: the record is
      appended to all the others. */
  lemma StringIdAppends(records: seq<AttendanceRecord>, id: string, date: string, status: string, now: int)
    requires ParsedIds(records) && id != "" && date != "" && status != ""
    ensures var r := Mark(records, MarkBody(Str(id), date, status), now);
      r.outcome.Ok? && r.state == records + [r.outcome.value] && ParsedIds(r.state)
  {
    var body := MarkBody(Str(id), date, status);
    Seqs.FilterAll(records, (a: AttendanceRecord) => !SameSlot(a, Str(id), date));
    var r := Mark(records, body, now);
    assert r.outcome.Ok?;
    assert !r.outcome.value.employeeId.Str?;
  }

  /** So marking employee 1 again with the string "1" leaves two records for
      employee 1 on that date. */
  lemma StringIdDoesNotReplace(date: string, now: int)
    requires date != ""
    ensures var first := AttendanceRecord(1, Num(1), date, "Present", now);
      var r := Mark([first], MarkBody(Str("1"), date, "Absent"), now);
      && r.outcome.Ok?
      && |r.state| == 2
      && r.state[0] == first
      && r.state[1].employeeId == Num(1) && r.state[1].date == date && r.state[1].status == "Absent"
  {
    var first := AttendanceRecord(1, Num(1), date, "Present", now);
    StringIdAppends([first], "1", date, "Absent", now);
    ParseIntOfDecimal("1");
  }
}

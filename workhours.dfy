/** The `/api/workhours` routes: check-in, check-out with total and overtime,
    the weekly summary and the listings. The collection may be missing: the
    listings read it as `[]`, check-in creates it, and check-out, which does
    not, throws (a 500). Hours are kept in milliseconds. */
module WorkHours {
  import opened Maybe
  import opened Js
  import opened Http
  import Seqs
  import Calendar

  /** A work-hours entry. `employeeId` is the raw body value; `date` is the
      day of the check-in; `totalMs`/`overtimeMs` are `totalHours`/`overtime`
      in milliseconds. */
  datatype WorkEntry = WorkEntry(
    id: int,
    employeeId: Val,
    date: int,
    checkIn: int,
    checkOut: Option<int>,
    totalMs: int,
    overtimeMs: int)

  function EntryEmployee(w: WorkEntry): Val { w.employeeId }
  function EntryTotal(w: WorkEntry): int { w.totalMs }
  function EntryOvertime(w: WorkEntry): int { w.overtimeMs }

  const MissingEmployee: string := "Employee ID is required"
  const AlreadyCheckedIn: string := "Already checked in today"
  const NoCheckIn: string := "No check-in found for today"

  /** The standard work day, beyond which time counts as overtime. */
  const StandardDayMs: int := 8 * Calendar.MsPerHour

  /** `w.employeeId === employeeId && w.date === today && !w.checkOut`. */
  predicate IsOpen(w: WorkEntry, employeeId: Val, today: int) {
    StrictEq(w.employeeId, employeeId) && w.date == today && w.checkOut.None?
  }

  /** The position of the open entry `find` returns, or -1. */
  function OpenIndex(hours: seq<WorkEntry>, employeeId: Val, today: int): (i: int)
    ensures -1 <= i < |hours|
    ensures 0 <= i ==> IsOpen(hours[i], employeeId, today)
    ensures i == -1 <==> forall j :: 0 <= j < |hours| ==> !IsOpen(hours[j], employeeId, today)
  {
    Seqs.FindIndex(hours, w => IsOpen(w, employeeId, today))
  }

  /** `GET /employee/:employeeId`: compares with the `parseInt`'d parameter. */
  function ListByEmployee(hours: Option<seq<WorkEntry>>, key: Val): (r: seq<WorkEntry>)
    ensures forall i :: 0 <= i < |r| ==> r[i] in OrEmpty(hours) && StrictEq(r[i].employeeId, key)
    ensures forall i :: 0 <= i < |OrEmpty(hours)| && StrictEq(OrEmpty(hours)[i].employeeId, key) ==> OrEmpty(hours)[i] in r
  {
    ByEmployee(OrEmpty(hours), EntryEmployee, key)
  }

  /** `POST /checkin` at instant `now`. */
  function CheckIn(hours: Option<seq<WorkEntry>>, employeeId: Val, now: int): (r: Reply<Option<seq<WorkEntry>>, WorkEntry>)
    ensures r.outcome.Ok? || r.outcome == BadRequest(MissingEmployee) || r.outcome == BadRequest(AlreadyCheckedIn)
    ensures r.outcome == BadRequest(MissingEmployee) <==> !Truthy(employeeId)
    ensures r.outcome == BadRequest(MissingEmployee) ==> r.state == hours
    ensures r.outcome == BadRequest(AlreadyCheckedIn) <==>
      Truthy(employeeId) && OpenIndex(OrEmpty(hours), employeeId, Calendar.DayOf(now)) >= 0
    ensures r.outcome == BadRequest(AlreadyCheckedIn) ==> r.state == Some(OrEmpty(hours))
    ensures r.outcome.Ok? ==> var w := r.outcome.value;
      && r.state == Some(OrEmpty(hours) + [w])
      && w.id == |OrEmpty(hours)| + 1
      && w.employeeId == employeeId && w.date == Calendar.DayOf(now)
      && w.checkIn == now && w.checkOut == None && w.totalMs == 0 && w.overtimeMs == 0
  {
    if !Truthy(employeeId) then Reply(hours, BadRequest(MissingEmployee))
    else
      var all := OrEmpty(hours);
      var today := Calendar.DayOf(now);
      if OpenIndex(all, employeeId, today) >= 0 then Reply(Some(all), BadRequest(AlreadyCheckedIn))
      else
        var w := WorkEntry(|all| + 1, employeeId, today, now, None, 0, 0);
        Reply(Some(all + [w]), Ok(w))
  }

  /** The entry closed at instant `now`: `totalHours` is the time since
      check-in, `overtime` the part of it beyond eight hours. */
  function Closed(w: WorkEntry, now: int): (r: WorkEntry)
    ensures r.checkOut == Some(now) && r.totalMs == now - w.checkIn
    ensures r.overtimeMs == if now - w.checkIn > StandardDayMs then now - w.checkIn - StandardDayMs else 0
    ensures r.id == w.id && r.employeeId == w.employeeId && r.date == w.date && r.checkIn == w.checkIn
  {
    var total := now - w.checkIn;
    w.(checkOut := Some(now), totalMs := total, overtimeMs := if total - StandardDayMs > 0 then total - StandardDayMs else 0)
  }

  /** Overtime is never negative and never exceeds the total, when the clock
      has not gone back since check-in. */
  lemma OvertimeBounds(w: WorkEntry, now: int)
    requires w.checkIn <= now
    ensures 0 <= Closed(w, now).overtimeMs <= Closed(w, now).totalMs
    ensures Closed(w, now).totalMs - Closed(w, now).overtimeMs <= StandardDayMs
  {
  }

  /** `POST /checkout` at instant `now`. */
  function CheckOut(hours: Option<seq<WorkEntry>>, employeeId: Val, now: int): (r: Reply<Option<seq<WorkEntry>>, WorkEntry>)
    ensures r.outcome.Ok? || r.outcome == BadRequest(MissingEmployee) || r.outcome == BadRequest(NoCheckIn) || r.outcome == ServerError
    ensures r.outcome == BadRequest(MissingEmployee) <==> !Truthy(employeeId)
    ensures r.outcome == ServerError <==> Truthy(employeeId) && hours.None?
    ensures !r.outcome.Ok? ==> r.state == hours
    ensures r.outcome == BadRequest(NoCheckIn) <==>
      Truthy(employeeId) && hours.Some? && OpenIndex(hours.value, employeeId, Calendar.DayOf(now)) < 0
    ensures r.outcome.Ok? ==> var i := OpenIndex(hours.value, employeeId, Calendar.DayOf(now));
      && r.outcome.value == Closed(hours.value[i], now)
      && r.state == Some(hours.value[i := r.outcome.value])
  {
    if !Truthy(employeeId) then Reply(hours, BadRequest(MissingEmployee))
    else if hours.None? then Reply(hours, ServerError)
    else
      var i := OpenIndex(hours.value, employeeId, Calendar.DayOf(now));
      if i < 0 then Reply(hours, BadRequest(NoCheckIn))
      else
        var w := Closed(hours.value[i], now);
        Reply(Some(hours.value[i := w]), Ok(w))
  }

  /** The entry belongs to the week ending at instant `now`:
      `weekAgo <= new Date(w.date) <= now`, the date read as midnight UTC. */
  predicate InWeek(w: WorkEntry, now: int) {
    now - 7 * Calendar.MsPerDay <= w.date * Calendar.MsPerDay <= now
  }

  /** `GET /weekly/:employeeId`: the entries and both sums. */
  datatype WeeklySummary = WeeklySummary(totalMs: int, overtimeMs: int, entries: seq<WorkEntry>)

  function WeekEntries(hours: seq<WorkEntry>, key: Val, now: int): (r: seq<WorkEntry>)
    ensures forall i :: 0 <= i < |r| ==> r[i] in hours && StrictEq(r[i].employeeId, key) && InWeek(r[i], now)
    ensures forall i :: 0 <= i < |hours| && StrictEq(hours[i].employeeId, key) && InWeek(hours[i], now) ==> hours[i] in r
  {
    Seqs.Filter(hours, (w: WorkEntry) => StrictEq(w.employeeId, key) && InWeek(w, now))
  }

  function Weekly(hours: Option<seq<WorkEntry>>, key: Val, now: int): (r: WeeklySummary)
    ensures r.entries == WeekEntries(OrEmpty(hours), key, now)
    ensures r.totalMs == Seqs.Sum(Seqs.Map(r.entries, EntryTotal))
    ensures r.overtimeMs == Seqs.Sum(Seqs.Map(r.entries, EntryOvertime))
  {
    var entries := WeekEntries(OrEmpty(hours), key, now);
    WeeklySummary(Seqs.Sum(Seqs.Map(entries, EntryTotal)), Seqs.Sum(Seqs.Map(entries, EntryOvertime)), entries)
  }

  /** Entries whose overtime lies between 0 and their total. */
  predicate HoursConsistent(hours: seq<WorkEntry>) {
    forall i :: 0 <= i < |hours| ==> 0 <= hours[i].overtimeMs <= hours[i].totalMs
  }

  /** The weekly overtime lies between 0 and the weekly total. */
  lemma WeeklyOvertimeBounded(hours: Option<seq<WorkEntry>>, key: Val, now: int)
    requires HoursConsistent(OrEmpty(hours))
    ensures 0 <= Weekly(hours, key, now).overtimeMs <= Weekly(hours, key, now).totalMs
  {
    var r := Weekly(hours, key, now);
    var ts := Seqs.Map(r.entries, EntryTotal);
    var os := Seqs.Map(r.entries, EntryOvertime);
    forall i | 0 <= i < |os| ensures 0 <= os[i] && os[i] <= ts[i] {
      assert r.entries[i] in OrEmpty(hours);
    }
    Seqs.SumNonNegative(os);
    Seqs.SumMonotone(os, ts);
  }

  /** Ids are positions plus one (there is no delete), so they are unique. */
  predicate IdsArePositions(hours: seq<WorkEntry>) {
    forall i :: 0 <= i < |hours| ==> hours[i].id == i + 1
  }

  /** At most one open entry per employee and date. */
  predicate OneOpenEntry(hours: seq<WorkEntry>) {
    forall i, j :: 0 <= i < j < |hours| && hours[j].checkOut.None? ==> !IsOpen(hours[i], hours[j].employeeId, hours[j].date)
  }

  /** The collection invariant of `workHours`. */
  predicate Valid(hours: Option<seq<WorkEntry>>) {
    hours.Some? ==> IdsArePositions(hours.value) && OneOpenEntry(hours.value)
  }

  lemma CheckInKeepsValid(hours: Option<seq<WorkEntry>>, employeeId: Val, now: int)
    requires Valid(hours)
    ensures Valid(CheckIn(hours, employeeId, now).state)
  {
    var r := CheckIn(hours, employeeId, now);
    if r.outcome.Ok? {
      var all := OrEmpty(hours);
      var s := all + [r.outcome.value];
      forall i, j | 0 <= i < j < |s| && s[j].checkOut.None? ensures !IsOpen(s[i], s[j].employeeId, s[j].date) {
        if j == |all| {
          assert s[i] == all[i];
          assert !IsOpen(all[i], employeeId, Calendar.DayOf(now));
        } else {
          assert s[i] == all[i] && s[j] == all[j];
        }
      }
    }
  }

  lemma CheckOutKeepsValid(hours: Option<seq<WorkEntry>>, employeeId: Val, now: int)
    requires Valid(hours)
    ensures Valid(CheckOut(hours, employeeId, now).state)
  {
  }

  /** After a check-out, the same employee can check in again the same day. */
  lemma CheckOutThenCheckIn(hours: Option<seq<WorkEntry>>, employeeId: Val, now: int, later: int)
    requires Valid(hours)
    requires CheckOut(hours, employeeId, now).outcome.Ok?
    requires Calendar.DayOf(later) == Calendar.DayOf(now)
    ensures CheckIn(CheckOut(hours, employeeId, now).state, employeeId, later).outcome.Ok?
  {
    var today := Calendar.DayOf(now);
    var i := OpenIndex(hours.value, employeeId, today);
    var s := CheckOut(hours, employeeId, now).state.value;
    forall j | 0 <= j < |s| ensures !IsOpen(s[j], employeeId, today) {
      if j != i {
        assert s[j] == hours.value[j];
        if j < i {
          assert !IsOpen(hours.value[j], employeeId, today);
        } else {
          assert !IsOpen(hours.value[j], hours.value[i].employeeId, hours.value[i].date);
        }
      }
    }
  }

  /** A second check-in on the same day without a check-out is refused. */
  lemma CheckInTwiceRefused(hours: Option<seq<WorkEntry>>, employeeId: Val, now: int, later: int)
    requires CheckIn(hours, employeeId, now).outcome.Ok?
    requires Calendar.DayOf(later) == Calendar.DayOf(now)
    ensures CheckIn(CheckIn(hours, employeeId, now).state, employeeId, later).outcome == BadRequest(AlreadyCheckedIn)
  {
    var s := CheckIn(hours, employeeId, now).state.value;
    assert IsOpen(s[|s| - 1], employeeId, Calendar.DayOf(later));
  }
}

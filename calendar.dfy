/** Dates as the JavaScript `Date` object sees them in UTC: an instant is a
    count of milliseconds since 1970-01-01T00:00:00Z, a day is a count of days
    since 1970-01-01. Months are numbered 1..12 here; the `JsMonth` helpers
    take the 0-based month numbers of `getMonth()`. */
module Calendar {

  const MsPerDay: int := 86400000
  const MsPerHour: int := 3600000

  /** The calendar day an instant falls on: `new Date(t).toISOString().split('T')[0]`. */
  function DayOf(t: int): (d: int)
    ensures d * MsPerDay <= t < (d + 1) * MsPerDay
  {
    t / MsPerDay
  }

  /** `getDay()`: 0 is Sunday. Day 0 (1970-01-01) was a Thursday. */
  function Weekday(d: int): (w: int)
    ensures 0 <= w < 7
  {
    (d + 4) % 7
  }

  /** Stepping one day forward steps the weekday forward. */
  lemma WeekdayNext(d: int)
    ensures Weekday(d + 1) == (Weekday(d) + 1) % 7
  {
  }

  /** Stepping `k` days forward steps the weekday forward by `k`, modulo 7. */
  lemma WeekdayAdvance(d: int, k: int)
    ensures Weekday(d + k) == (Weekday(d) + k) % 7
  {
    var q := (d + 4) / 7;
    assert d + 4 == 7 * q + Weekday(d);
    assert d + k + 4 == 7 * q + (Weekday(d) + k);
  }

  /** Stepping back by a day's own weekday lands on a Sunday. */
  lemma SundayOnOrBefore(d: int)
    ensures Weekday(d - Weekday(d)) == 0
  {
  }

  predicate IsLeap(y: int) {
    y % 4 == 0 && (y % 100 != 0 || y % 400 == 0)
  }

  /** Length of month `m` (1..12) of year `y` in the Gregorian calendar. */
  function DaysInMonth(y: int, m: int): (n: int)
    requires 1 <= m <= 12
    ensures 28 <= n <= 31
  {
    if m == 2 then (if IsLeap(y) then 29 else 28)
    else if m == 4 || m == 6 || m == 9 || m == 11 then 30
    else 31
  }

  /** Days from March 1 to the first of the `mp`-th month counted from March (0..11). */
  function DaysBeforeShiftedMonth(mp: int): int
  {
    (153 * mp + 2) / 5
  }

  /** Days from March 1 of year 0 of a 400-year era to March 1 of its year `yoe`. */
  function YearDays(yoe: int): int
  {
    yoe * 365 + yoe / 4 - yoe / 100
  }

  /** The day number of March 1 of year `yp`: 365 days a year plus one for
      every fourth year, less the centuries, plus every fourth century. */
  function MarchFirst(yp: int): int
  {
    365 * yp + yp / 4 - yp / 100 + yp / 400 - 719468
  }

  /** The day number of `y-m-d` (proleptic Gregorian, m in 1..12): March 1
      of its March-based year, plus the months since, plus the day. The day of the month
      may lie outside the month: `d = 0` is the last day of the previous month,
      exactly as `new Date(y, m - 1, 0)` behaves. */
  function DaysFromCivil(y: int, m: int, d: int): int
    requires 1 <= m <= 12
  {
    var yp := if m <= 2 then y - 1 else y;
    var mp := if m > 2 then m - 3 else m + 9;
    MarchFirst(yp) + DaysBeforeShiftedMonth(mp) + d - 1
  }

  /** A civil date: year, month 1..12, day of the month. */
  datatype Civil = Civil(year: int, month: int, day: int)

  /** Splits a day of a 400-year era (counted from March 1 of year 0 of the era)
      into century, 4-year block, year of the block and day of that year. */
  function EraSplit(doe: int): (r: (int, int, int, int))
    requires 0 <= doe < 146097
    ensures 0 <= r.0 < 4 && 0 <= r.1 < 25 && 0 <= r.2 < 4 && 0 <= r.3 <= 365
    ensures doe == 36524 * r.0 + 1461 * r.1 + 365 * r.2 + r.3
    ensures r.3 == 365 ==> r.2 == 3 && (r.1 < 24 || r.0 == 3)
  {
    var c := if doe / 36524 < 4 then doe / 36524 else 3;
    var rc := doe - 36524 * c;
    var q := rc / 1461;
    var s := rc - 1461 * q;
    var y := if s / 365 < 4 then s / 365 else 3;
    (c, q, y, s - 365 * y)
  }

  /** The month (counted from March, 0..11) and day of a day of the March-based year. */
  function ShiftedMonthDay(doy: int): (r: (int, int))
    requires 0 <= doy <= 365
    ensures 0 <= r.0 < 12 && 1 <= r.1
    ensures DaysBeforeShiftedMonth(r.0) + r.1 - 1 == doy
    ensures r.0 < 11 ==> r.1 <= DaysBeforeShiftedMonth(r.0 + 1) - DaysBeforeShiftedMonth(r.0)
    ensures r.0 == 11 ==> r.1 <= doy - 336
  {
    var mp := (5 * doy + 2) / 153;
    (mp, doy - DaysBeforeShiftedMonth(mp) + 1)
  }

  /** Euclidean division by 4, 100 and 400, from a quotient and remainder. */
  lemma DivMod4(x: int, q: int, r: int)
    requires x == 4 * q + r && 0 <= r < 4
    ensures x / 4 == q && x % 4 == r
  {
  }

  lemma DivMod100(x: int, q: int, r: int)
    requires x == 100 * q + r && 0 <= r < 100
    ensures x / 100 == q && x % 100 == r
  {
  }

  lemma DivMod400(x: int, q: int, r: int)
    requires x == 400 * q + r && 0 <= r < 400
    ensures x / 400 == q && x % 400 == r
  {
  }

  /** The day after the last day of a 4-year block (the 366th day of its last
      year) falls in a leap February: the block is not the last of a century
      unless the century is the last of the era. */
  lemma LastShiftedDayIsLeap(era: int, c: int, q: int)
    requires 0 <= c < 4 && 0 <= q < 25
    ensures q < 24 || c == 3 ==> IsLeap(400 * era + 100 * c + 4 * q + 4)
  {
    var x := 400 * era + 100 * c + 4 * q + 4;
    DivMod4(x, 100 * era + 25 * c + q + 1, 0);
    if q < 24 {
      DivMod100(x, 4 * era + c, 4 * q + 4);
    } else if c == 3 {
      DivMod400(x, era + 1, 0);
    }
  }

  /** A day `d` of the `mp`-th month from March, bounded as `ShiftedMonthDay`
      bounds it, is a day of that calendar month. */
  lemma ShiftedMonthFits(mp: int, d: int, doy: int, y: int)
    requires 0 <= mp < 12 && 1 <= d && doy <= 365
    requires mp < 11 ==> d <= DaysBeforeShiftedMonth(mp + 1) - DaysBeforeShiftedMonth(mp)
    requires mp == 11 ==> d <= doy - 336
    requires mp == 11 && doy == 365 ==> IsLeap(y)
    ensures d <= DaysInMonth(y, if mp < 10 then mp + 3 else mp - 9)
  {
    if mp == 0 { assert DaysBeforeShiftedMonth(1) - DaysBeforeShiftedMonth(0) == 31; }
    else if mp == 1 { assert DaysBeforeShiftedMonth(2) - DaysBeforeShiftedMonth(1) == 30; }
    else if mp == 2 { assert DaysBeforeShiftedMonth(3) - DaysBeforeShiftedMonth(2) == 31; }
    else if mp == 3 { assert DaysBeforeShiftedMonth(4) - DaysBeforeShiftedMonth(3) == 30; }
    else if mp == 4 { assert DaysBeforeShiftedMonth(5) - DaysBeforeShiftedMonth(4) == 31; }
    else if mp == 5 { assert DaysBeforeShiftedMonth(6) - DaysBeforeShiftedMonth(5) == 31; }
    else if mp == 6 { assert DaysBeforeShiftedMonth(7) - DaysBeforeShiftedMonth(6) == 30; }
    else if mp == 7 { assert DaysBeforeShiftedMonth(8) - DaysBeforeShiftedMonth(7) == 31; }
    else if mp == 8 { assert DaysBeforeShiftedMonth(9) - DaysBeforeShiftedMonth(8) == 30; }
    else if mp == 9 { assert DaysBeforeShiftedMonth(10) - DaysBeforeShiftedMonth(9) == 31; }
    else if mp == 10 { assert DaysBeforeShiftedMonth(11) - DaysBeforeShiftedMonth(10) == 31; }
  }

  /** The civil date of a day number, always a valid date. */
  function CivilFromDays(z: int): (c: Civil)
    ensures 1 <= c.month <= 12
    ensures 1 <= c.day <= DaysInMonth(c.year, c.month)
  {
    var z' := z + 719468;
    var era := z' / 146097;
    var doe := z' - era * 146097;
    var parts := EraSplit(doe);
    var yoe := 100 * parts.0 + 4 * parts.1 + parts.2;
    var doy := parts.3;
    var md := ShiftedMonthDay(doy);
    var m := if md.0 < 10 then md.0 + 3 else md.0 - 9;
    var y := if m <= 2 then yoe + era * 400 + 1 else yoe + era * 400;
    LastShiftedDayIsLeap(era, parts.0, parts.1);
    ShiftedMonthFits(md.0, md.1, doy, y);
    Civil(y, m, md.1)
  }

  /** `getMonth()` and `getFullYear()` of an instant are the month and year of its day. */
  function YearMonthOf(t: int): (r: (int, int))
    ensures 1 <= r.1 <= 12
  {
    var c := CivilFromDays(DayOf(t));
    (c.year, c.month)
  }

  /** The first day of a month named the JavaScript way: `new Date(year, month, 1)`
      with `month` in 0..11. */
  function FirstOfJsMonth(year: int, month: int): int
    requires 0 <= month < 12
  {
    DaysFromCivil(year, month + 1, 1)
  }

  /** `new Date(year, month + 1, 0).getDate()`. */
  function DaysInJsMonth(year: int, month: int): (n: int)
    requires 0 <= month < 12
    ensures 28 <= n <= 31
  {
    DaysInMonth(year, month + 1)
  }

  /** Days of an era before year `100c + 4q + y` of it. */
  lemma YearsBefore(c: int, q: int, y: int)
    requires 0 <= c < 4 && 0 <= q < 25 && 0 <= y < 4
    ensures YearDays(100 * c + 4 * q + y) == 36524 * c + 1461 * q + 365 * y
  {
    var yoe := 100 * c + 4 * q + y;
    assert yoe / 4 == 25 * c + q;
    assert yoe / 100 == c;
  }

  /** March 1 of year `yoe` of era `era`. */
  lemma MarchFirstOfEra(era: int, yoe: int)
    requires 0 <= yoe < 400
    ensures MarchFirst(yoe + era * 400) == era * 146097 + YearDays(yoe) - 719468
  {
    var x := yoe + era * 400;
    DivMod4(yoe, yoe / 4, yoe % 4);
    DivMod4(x, yoe / 4 + 100 * era, yoe % 4);
    DivMod100(yoe, yoe / 100, yoe % 100);
    DivMod100(x, yoe / 100 + 4 * era, yoe % 100);
    DivMod400(x, era, yoe);
  }

  /** `CivilFromDays` is inverted by `DaysFromCivil`. */
  lemma RoundTrip(z: int)
    ensures var c := CivilFromDays(z); DaysFromCivil(c.year, c.month, c.day) == z
  {
    var c := CivilFromDays(z);
    var z' := z + 719468;
    var era := z' / 146097;
    var doe := z' - era * 146097;
    var parts := EraSplit(doe);
    var yoe := 100 * parts.0 + 4 * parts.1 + parts.2;
    var md := ShiftedMonthDay(parts.3);
    assert c.day == md.1;
    assert (if c.month <= 2 then c.year - 1 else c.year) == yoe + era * 400;
    assert (if c.month > 2 then c.month - 3 else c.month + 9) == md.0;
    YearsBefore(parts.0, parts.1, parts.2);
    MarchFirstOfEra(era, yoe);
  }

  /** Each quotient grows by one exactly at a multiple of its divisor. */
  lemma QuotientSteps(n: int)
    ensures (n + 1) / 4 - n / 4 == if (n + 1) % 4 == 0 then 1 else 0
    ensures (n + 1) / 100 - n / 100 == if (n + 1) % 100 == 0 then 1 else 0
    ensures (n + 1) / 400 - n / 400 == if (n + 1) % 400 == 0 then 1 else 0
  {
    var q4, r4 := n / 4, n % 4;
    DivMod4(n, q4, r4);
    if r4 == 3 { DivMod4(n + 1, q4 + 1, 0); } else { DivMod4(n + 1, q4, r4 + 1); }
    var q100, r100 := n / 100, n % 100;
    DivMod100(n, q100, r100);
    if r100 == 99 { DivMod100(n + 1, q100 + 1, 0); } else { DivMod100(n + 1, q100, r100 + 1); }
    var q400, r400 := n / 400, n % 400;
    DivMod400(n, q400, r400);
    if r400 == 399 { DivMod400(n + 1, q400 + 1, 0); } else { DivMod400(n + 1, q400, r400 + 1); }
  }

  /** The March-based year starting in year `yp` has 366 days exactly when the
      February at its end, in year `yp + 1`, is a leap February. */
  lemma ShiftedYearLength(yp: int)
    ensures MarchFirst(yp + 1) - MarchFirst(yp) == if IsLeap(yp + 1) then 366 else 365
  {
    QuotientSteps(yp);
    var n := yp + 1;
    if n % 100 == 0 {
      DivMod100(n, n / 100, 0);
      DivMod4(n, 25 * (n / 100), 0);
    }
    if n % 400 == 0 {
      DivMod400(n, n / 400, 0);
      DivMod100(n, 4 * (n / 400), 0);
    }
  }

  /** The first of the next month is `DaysInMonth` days after the first of this one. */
  lemma NextMonthStart(y: int, m: int)
    requires 1 <= m <= 12
    ensures DaysFromCivil(if m == 12 then y + 1 else y, if m == 12 then 1 else m + 1, 1)
         == DaysFromCivil(y, m, 1) + DaysInMonth(y, m)
  {
    if m == 2 {
      ShiftedYearLength(y - 1);
    }
  }
}

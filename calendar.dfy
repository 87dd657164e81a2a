/**
 * A proleptic Gregorian UTC calendar with one-second resolution, standing in
 * for the parts of Go's `time` package the schedule evaluator relies on:
 * `time.Date` (which normalises out-of-range fields by carrying them into the
 * coarser ones), `Day`, `Weekday`, `Add` and the ordering of instants.
 */
module Calendar {

  /** A calendar reading; `Valid` says when every field is in range. */
  datatype DateTime = DateTime(year: int, month: int, day: int, hour: int, minute: int, second: int)

  predicate IsLeap(y: int) {
    y % 4 == 0 && (y % 100 != 0 || y % 400 == 0)
  }

  function DaysIn(y: int, m: int): (n: int)
    requires 1 <= m <= 12
    ensures 28 <= n <= 31
    ensures m == 2 ==> (n == 29 <==> IsLeap(y))
  {
    if m == 2 then (if IsLeap(y) then 29 else 28)
    else if m == 4 || m == 6 || m == 9 || m == 11 then 30
    else 31
  }

  predicate ValidDate(y: int, m: int, d: int) {
    1 <= m <= 12 && 1 <= d <= DaysIn(y, m)
  }

  predicate Valid(t: DateTime) {
    && ValidDate(t.year, t.month, t.day)
    && 0 <= t.hour < 24
    && 0 <= t.minute < 60
    && 0 <= t.second < 60
  }

  /** Number of leap years among the years 1 .. y-1 (negative for y < 1). */
  function LeapsBefore(y: int): int {
    (y - 1) / 4 - (y - 1) / 100 + (y - 1) / 400
  }

  function YearLength(y: int): int {
    if IsLeap(y) then 366 else 365
  }

  /** Day number of January 1st of year y; January 1st of year 1 is day 0. */
  function YearStart(y: int): int {
    365 * (y - 1) + LeapsBefore(y)
  }

  /** Days of year y before the first of month m. */
  function MonthStart(y: int, m: int): int
    requires 1 <= m <= 12
  {
    var before := if m == 1 then 0 else if m == 2 then 31 else if m == 3 then 59
      else if m == 4 then 90 else if m == 5 then 120 else if m == 6 then 151
      else if m == 7 then 181 else if m == 8 then 212 else if m == 9 then 243
      else if m == 10 then 273 else if m == 11 then 304 else 334;
    if m > 2 && IsLeap(y) then before + 1 else before
  }

  /** Day number of day d (any integer, counted from the first) of month m of year y. */
  function DayNumber(y: int, m: int, d: int): int
    requires 1 <= m <= 12
  {
    YearStart(y) + MonthStart(y, m) + d - 1
  }

  /** `time.Date`'s first step: month reduced into 1..12, the excess carried into the year. */
  function CarryMonths(year: int, month: int): (r: (int, int))
    ensures 1 <= r.1 <= 12
    ensures r.0 * 12 + r.1 == year * 12 + month
    ensures 1 <= month <= 12 ==> r == (year, month)
  {
    (year + (month - 1) / 12, (month - 1) % 12 + 1)
  }

  /** Seconds carried into minutes, minutes into hours and hours into days. */
  function CarryClock(day: int, hour: int, minute: int, second: int): (r: (int, int, int, int))
    ensures 0 <= r.1 < 24 && 0 <= r.2 < 60 && 0 <= r.3 < 60
    ensures r.0 * 86400 + r.1 * 3600 + r.2 * 60 + r.3 == day * 86400 + hour * 3600 + minute * 60 + second
    ensures 0 <= hour < 24 && 0 <= minute < 60 && 0 <= second < 60 ==> r == (day, hour, minute, second)
  {
    var mi := minute + second / 60;
    var h := hour + mi / 60;
    (day + h / 24, h % 24, mi % 60, second % 60)
  }

  /**
   * Absolute seconds of an arbitrary field tuple: the month is first reduced
   * into 1..12 (carrying into the year), every other field is taken as an
   * offset, exactly the reading `time.Date` gives its arguments.
   */
  function Seconds(year: int, month: int, day: int, hour: int, minute: int, second: int): int {
    var (y, m) := CarryMonths(year, month);
    DayNumber(y, m, day) * 86400 + hour * 3600 + minute * 60 + second
  }

  function Instant(t: DateTime): int {
    Seconds(t.year, t.month, t.day, t.hour, t.minute, t.second)
  }

  /** Strict order of instants, the order Go's `Time.Before` uses. */
  predicate Before(a: DateTime, b: DateTime) {
    Instant(a) < Instant(b)
  }

  /** `t.Weekday()`, Sunday = 0 ... Saturday = 6 (January 1st of year 1 is a Monday). */
  function Weekday(t: DateTime): (w: int)
    requires 1 <= t.month <= 12
    ensures 0 <= w < 7
  {
    (DayNumber(t.year, t.month, t.day) + 1) % 7
  }

  function NextMonth(y: int, m: int): (int, int) {
    if m == 12 then (y + 1, 1) else (y, m + 1)
  }

  function PrevMonth(y: int, m: int): (int, int) {
    if m == 1 then (y - 1, 12) else (y, m - 1)
  }

  lemma LeapsStep(y: int)
    ensures LeapsBefore(y + 1) == LeapsBefore(y) + (if IsLeap(y) then 1 else 0)
  {
    Step4(y);
    Step100(y);
    Step400(y);
  }

  lemma Step4(y: int)
    ensures y / 4 - (y - 1) / 4 == (if y % 4 == 0 then 1 else 0)
  {
  }

  lemma Step100(y: int)
    ensures y / 100 - (y - 1) / 100 == (if y % 100 == 0 then 1 else 0)
  {
  }

  lemma Step400(y: int)
    ensures y / 400 - (y - 1) / 400 == (if y % 400 == 0 then 1 else 0)
  {
  }

  /** The first of the following month lies DaysIn(y, m) days after the first of month m. */
  lemma MonthStep(y: int, m: int)
    requires 1 <= m <= 12
    ensures NextMonth(y, m).1 in {1,2,3,4,5,6,7,8,9,10,11,12}
    ensures DayNumber(NextMonth(y, m).0, NextMonth(y, m).1, 1) == DayNumber(y, m, 1) + DaysIn(y, m)
  {
    if m == 12 {
      LeapsStep(y);
    }
  }

  /**
   * Carries an out-of-range day into the neighbouring months until it fits,
   * keeping the day number.
   */
  function CarryDays(y: int, m: int, d: int): (r: (int, int, int))
    requires 1 <= m <= 12
    ensures ValidDate(r.0, r.1, r.2)
    ensures DayNumber(r.0, r.1, r.2) == DayNumber(y, m, d)
    ensures ValidDate(y, m, d) ==> r == (y, m, d)
    decreases if d < 1 then 1 - d else 0, if d < 1 then 0 else d
  {
    if d < 1 then
      var (py, pm) := PrevMonth(y, m);
      MonthStep(py, pm);
      CarryDays(py, pm, d + DaysIn(py, pm))
    else if d > DaysIn(y, m) then
      var (ny, nm) := NextMonth(y, m);
      MonthStep(y, m);
      CarryDays(ny, nm, d - DaysIn(y, m))
    else
      (y, m, d)
  }

  /**
   * `time.Date(year, month, day, hour, minute, second, 0, time.UTC)`: the valid
   * reading of the instant the fields denote, every overflow or underflow
   * carried into the next coarser field (minute 60 is the next hour, April 31
   * is May 1, month 13 is January of the next year).
   */
  function Date(year: int, month: int, day: int, hour: int, minute: int, second: int): (r: DateTime)
    ensures Valid(r)
    ensures Instant(r) == Seconds(year, month, day, hour, minute, second)
    ensures Valid(DateTime(year, month, day, hour, minute, second)) ==> r == DateTime(year, month, day, hour, minute, second)
  {
    var (d, h, mi, sec) := CarryClock(day, hour, minute, second);
    var (y, m) := CarryMonths(year, month);
    var (y', m', d') := CarryDays(y, m, d);
    DateTime(y', m', d', h, mi, sec)
  }

  /** `t.Add(n * time.Second)`. */
  function AddSeconds(t: DateTime, n: int): (r: DateTime)
    requires Valid(t)
    ensures Valid(r) && Instant(r) == Instant(t) + n
  {
    Date(t.year, t.month, t.day, t.hour, t.minute, t.second + n)
  }

  /** `findLastDayOfMonth`: midnight of the last day of t's month. */
  function LastDayOfMonth(t: DateTime): (r: DateTime)
    requires 1 <= t.month <= 12
    ensures r == DateTime(t.year, t.month, DaysIn(t.year, t.month), 0, 0, 0)
  {
    var (ny, nm) := NextMonth(t.year, t.month);
    assert ny == t.year + t.month / 12 && nm == t.month % 12 + 1;
    assert CarryDays(ny, nm, 0) == (t.year, t.month, DaysIn(t.year, t.month));
    Date(t.year, t.month + 1, 0, 0, 0, 0)
  }

  /** A day past the end of the month, by less than four weeks, lands in the following month. */
  lemma DayOverflow(y: int, m: int, d: int)
    requires 1 <= m <= 12 && DaysIn(y, m) < d <= DaysIn(y, m) + 28
    ensures CarryDays(y, m, d) == (NextMonth(y, m).0, NextMonth(y, m).1, d - DaysIn(y, m))
  {
    MonthStep(y, m);
  }

  /** Within a year, a later month starts after the whole of an earlier one. */
  lemma MonthStartGrows(y: int, m: int, v: int)
    requires 1 <= m < v <= 12
    ensures MonthStart(y, m) + DaysIn(y, m) <= MonthStart(y, v)
  {
  }

  /** Every day of a year comes before January 1st of the next. */
  lemma YearEnd(y: int, m: int, d: int)
    requires ValidDate(y, m, d)
    ensures DayNumber(y, m, d) < DayNumber(y + 1, 1, 1)
  {
    MonthStep(y, 12);
    if m < 12 {
      MonthStartGrows(y, m, 12);
    }
  }
  /** Two readings of the same instant as whole days plus a clock in 0..86399 agree on the day. */
  lemma SameDay(a: int, x: int, b: int, y: int)
    requires 0 <= x < 86400 && 0 <= y < 86400 && a * 86400 + x == b * 86400 + y
    ensures a == b && x == y
  {
  }

  /** January 1st, 1970 (the Unix epoch) is a Thursday. */
  lemma WeekdayEpoch()
    ensures Weekday(DateTime(1970, 1, 1, 0, 0, 0)) == 4
  {
    assert YearStart(1970) == 719162;
  }

  /** A valid reading's instant is its day number in seconds plus its clock. */
  lemma InstantOfValid(t: DateTime)
    requires Valid(t)
    ensures Instant(t) == DayNumber(t.year, t.month, t.day) * 86400 + Clock(t)
  {
  }

  /** Seconds since midnight. */
  function Clock(t: DateTime): int {
    t.hour * 3600 + t.minute * 60 + t.second
  }

  /** Adding a day moves to the next day number at the same clock. */
  lemma NextDayNumber(t: DateTime)
    requires Valid(t)
    ensures var r := AddSeconds(t, 86400);
      DayNumber(r.year, r.month, r.day) == DayNumber(t.year, t.month, t.day) + 1 && Clock(r) == Clock(t)
  {
    var r := AddSeconds(t, 86400);
    InstantOfValid(r);
    InstantOfValid(t);
    SameDay(DayNumber(r.year, r.month, r.day), Clock(r), DayNumber(t.year, t.month, t.day) + 1, Clock(t));
  }

  /** The day after x falls on the weekday after x's. */
  lemma WeekStep(x: int)
    ensures (x + 1) % 7 == (x % 7 + 1) % 7
  {
    var q := x / 7;
    assert x + 1 == 7 * q + (x % 7 + 1);
  }

  /** A day later it is the next day of the week, Saturday wrapping round to Sunday. */
  lemma WeekdayNextDay(t: DateTime)
    requires Valid(t)
    ensures Weekday(AddSeconds(t, 86400)) == (Weekday(t) + 1) % 7
  {
    NextDayNumber(t);
    WeekStep(DayNumber(t.year, t.month, t.day) + 1);
  }
}

/**
 * One field of a schedule (`monthTimeUnit`, `dayTimeUnit`, `weekdayTimeUnit`,
 * `hourTimeUnit`, `minTimeUnit`, `secTimeUnit`): the sorted sets parsed for
 * that field, and the step `Next` that either accepts an instant, jumps
 * forward to the field's next candidate value (zeroing every finer field),
 * or rolls the parent field over and reports failure. `Previous` is the
 * backward counterpart as the source writes it.
 */
module TimeUnits {
  import opened Calendar
  import opened TimeSets

  /** `setSeconds`: the same minute at second secs (carried when out of range). */
  function SetSeconds(t: DateTime, secs: int): (r: DateTime)
    requires Valid(t)
    ensures Valid(r) && Instant(r) == Instant(t) - t.second + secs
    ensures 0 <= secs < 60 ==> r == t.(second := secs)
  {
    Date(t.year, t.month, t.day, t.hour, t.minute, secs)
  }

  /** `setMinutes`: the same hour at minute `minutes`, second 0. */
  function SetMinutes(t: DateTime, minutes: int): (r: DateTime)
    requires Valid(t)
    ensures Valid(r) && Instant(r) == Instant(t) - t.minute * 60 - t.second + minutes * 60
    ensures 0 <= minutes < 60 ==> r == t.(minute := minutes, second := 0)
  {
    Date(t.year, t.month, t.day, t.hour, minutes, 0)
  }

  /** `setHours`: the same day at hour `hours`, 00:00. */
  function SetHours(t: DateTime, hours: int): (r: DateTime)
    requires Valid(t)
    ensures Valid(r) && Instant(r) == Instant(t) - t.hour * 3600 - t.minute * 60 - t.second + hours * 3600
    ensures 0 <= hours < 24 ==> r == t.(hour := hours, minute := 0, second := 0)
  {
    Date(t.year, t.month, t.day, hours, 0, 0)
  }

  /** `setDays`: midnight of day `days` of the same month, carried into the next month past its end. */
  function SetDays(t: DateTime, days: int): (r: DateTime)
    requires Valid(t)
    ensures Valid(r) && Instant(r) == DayNumber(t.year, t.month, days) * 86400
    ensures 1 <= days <= DaysIn(t.year, t.month) ==> r == DateTime(t.year, t.month, days, 0, 0, 0)
    ensures DaysIn(t.year, t.month) < days <= DaysIn(t.year, t.month) + 28 ==>
      r == DateTime(NextMonth(t.year, t.month).0, NextMonth(t.year, t.month).1, days - DaysIn(t.year, t.month), 0, 0, 0)
  {
    if DaysIn(t.year, t.month) < days <= DaysIn(t.year, t.month) + 28 then
      DayOverflow(t.year, t.month, days);
      Date(t.year, t.month, days, 0, 0, 0)
    else
      Date(t.year, t.month, days, 0, 0, 0)
  }

  /** `setMonths`: midnight of the first of month `months` of the same year (month 13 is next January). */
  function SetMonths(t: DateTime, months: int): (r: DateTime)
    requires Valid(t)
    ensures Valid(r) && Instant(r) == Seconds(t.year, months, 1, 0, 0, 0)
    ensures 1 <= months <= 12 ==> r == DateTime(t.year, months, 1, 0, 0, 0)
    ensures months == 13 ==> r == DateTime(t.year + 1, 1, 1, 0, 0, 0)
  {
    Date(t.year, months, 1, 0, 0, 0)
  }

  /** `setYears`: midnight of January 1st of year `years`. */
  function SetYears(t: DateTime, years: int): (r: DateTime)
    ensures r == DateTime(years, 1, 1, 0, 0, 0)
  {
    Date(years, 1, 1, 0, 0, 0)
  }

  /** The six kinds of field; each holds its field's sets in sorted order. */
  datatype TimeUnit =
    | MonthUnit(sets: seq<TimeSet>)
    | DayUnit(sets: seq<TimeSet>)
    | WeekdayUnit(sets: seq<TimeSet>)
    | HourUnit(sets: seq<TimeSet>)
    | MinuteUnit(sets: seq<TimeSet>)
    | SecondUnit(sets: seq<TimeSet>)

  /** `Schedule`: the fields in the order they are applied. */
  datatype Schedule = Schedule(timeUnits: seq<TimeUnit>)

  /** The units in the order the parser lays them out: month, day, weekday, hour, minute, second. */
  predicate InParseOrder(units: seq<TimeUnit>) {
    && |units| == 6
    && units[0].MonthUnit? && units[1].DayUnit? && units[2].WeekdayUnit?
    && units[3].HourUnit? && units[4].MinuteUnit? && units[5].SecondUnit?
  }

  /** The value of t a unit's sets are compared with. */
  function Field(u: TimeUnit, t: DateTime): int
    requires Valid(t)
  {
    match u
    case MonthUnit(_) => t.month
    case DayUnit(_) => t.day
    case WeekdayUnit(_) => Weekday(t)
    case HourUnit(_) => t.hour
    case MinuteUnit(_) => t.minute
    case SecondUnit(_) => t.second
  }

  /** The converter a unit's tokens are parsed with. */
  function Conv(u: TimeUnit): Converter {
    match u
    case DayUnit(_) => LastDayConverter
    case WeekdayUnit(_) => WeekDayConverter
    case _ => UnitConverter
  }

  /** The domain a unit's sets are checked against when parsed. */
  function Min(u: TimeUnit): int {
    match u
    case MonthUnit(_) => 1
    case DayUnit(_) => 1
    case _ => 0
  }

  function Max(u: TimeUnit): int {
    match u
    case MonthUnit(_) => 12
    case DayUnit(_) => 31
    case WeekdayUnit(_) => 6
    case HourUnit(_) => 23
    case _ => 59
  }

  /** No set divides by a zero step. */
  predicate Evaluable(u: TimeUnit) {
    forall i :: 0 <= i < |u.sets| ==> StepsNonZero(u.sets[i])
  }

  /** What parsing guarantees: every set has the unit's shapes and lies in its domain. */
  predicate Parsed(u: TimeUnit) {
    forall i :: 0 <= i < |u.sets| ==> Shaped(Conv(u), u.sets[i]) && SubsetOf(u.sets[i], Min(u), Max(u))
  }

  /** Parsed, evaluable, and every range runs upwards. */
  predicate WellFormed(u: TimeUnit) {
    && Parsed(u)
    && Evaluable(u)
    && forall i :: 0 <= i < |u.sets| ==> Ordered(u.sets[i])
  }

  /** t's field is matched by some set of the unit, or the unit has no sets. */
  predicate Matched(u: TimeUnit, t: DateTime)
    requires Valid(t) && Evaluable(u)
  {
    |u.sets| == 0 || exists j :: 0 <= j < |u.sets| && Admits(u.sets[j], t, Field(u, t))
  }

  /** A set that stops the forward scan: not Less (for weekdays: Equal). */
  predicate Decisive(u: TimeUnit, s: TimeSet, t: DateTime)
    requires Valid(t) && StepsNonZero(s)
  {
    if u.WeekdayUnit? then Compare(s, t, Field(u, t)) == OrderingEqual
    else Compare(s, t, Field(u, t)) != OrderingLess
  }

  /** Index of the first decisive set at or after `from`, or |sets| when there is none. */
  function FirstDecisive(u: TimeUnit, t: DateTime, from: nat): (i: nat)
    requires Valid(t) && Evaluable(u) && from <= |u.sets|
    ensures from <= i <= |u.sets|
    ensures forall j :: from <= j < i ==> !Decisive(u, u.sets[j], t)
    ensures i < |u.sets| ==> Decisive(u, u.sets[i], t)
    decreases |u.sets| - from
  {
    if from == |u.sets| then from
    else if Decisive(u, u.sets[from], t) then from
    else FirstDecisive(u, t, from + 1)
  }

  /**
   * The `false` branch of `Next`: the parent field bumped by one, this
   * field and every finer one at their first value.
   */
  function Roll(u: TimeUnit, t: DateTime): (r: DateTime)
    requires Valid(t)
    ensures Valid(r) && Before(t, r)
    ensures match u
      case SecondUnit(_) => r.second == 0 && Instant(r) == Instant(t) - t.second + 60
      case MinuteUnit(_) => r.minute == 0 && r.second == 0 && Instant(r) == Instant(t) - t.minute * 60 - t.second + 3600
      case HourUnit(_) => r.hour == 0 && r.minute == 0 && r.second == 0 && Instant(r) == (DayNumber(t.year, t.month, t.day) + 1) * 86400
      case WeekdayUnit(_) => r.hour == 0 && r.minute == 0 && r.second == 0 && Instant(r) == (DayNumber(t.year, t.month, t.day) + 1) * 86400
      case DayUnit(_) => r == DateTime(NextMonth(t.year, t.month).0, NextMonth(t.year, t.month).1, 1, 0, 0, 0)
      case MonthUnit(_) => r == DateTime(t.year + 1, 1, 1, 0, 0, 0)
  {
    match u
    case SecondUnit(_) => RollMinute(t); SetMinutes(t, t.minute + 1)
    case MinuteUnit(_) => RollHour(t); SetHours(t, t.hour + 1)
    case HourUnit(_) => RollDay(t); SetDays(t, t.day + 1)
    case WeekdayUnit(_) => RollDay(t); SetDays(t, t.day + 1)
    case DayUnit(_) => RollMonth(t); SetMonths(t, t.month + 1)
    case MonthUnit(_) => RollYear(t); SetYears(t, t.year + 1)
  }

  /** The Roll of each kind of unit, one lemma per kind to keep each proof small. */
  lemma RollMinute(t: DateTime)
    requires Valid(t)
    ensures var r := SetMinutes(t, t.minute + 1);
      Before(t, r) && r.second == 0 && Instant(r) == Instant(t) - t.second + 60
  {
  }

  lemma RollHour(t: DateTime)
    requires Valid(t)
    ensures var r := SetHours(t, t.hour + 1);
      Before(t, r) && r.minute == 0 && r.second == 0 && Instant(r) == Instant(t) - t.minute * 60 - t.second + 3600
  {
  }

  lemma RollDay(t: DateTime)
    requires Valid(t)
    ensures var r := SetDays(t, t.day + 1);
      Before(t, r) && r.hour == 0 && r.minute == 0 && r.second == 0 && Instant(r) == (DayNumber(t.year, t.month, t.day) + 1) * 86400
  {
  }

  lemma RollMonth(t: DateTime)
    requires Valid(t)
    ensures var r := SetMonths(t, t.month + 1);
      Before(t, r) && r == DateTime(NextMonth(t.year, t.month).0, NextMonth(t.year, t.month).1, 1, 0, 0, 0)
  {
    MonthStep(t.year, t.month);
  }

  lemma RollYear(t: DateTime)
    requires Valid(t)
    ensures var r := SetYears(t, t.year + 1); Before(t, r) && r == DateTime(t.year + 1, 1, 1, 0, 0, 0)
  {
    YearEnd(t.year, t.month, t.day);
  }

  /** The `orderingGreater` branch of `Next` for a value v of the field. */
  function Jump(u: TimeUnit, t: DateTime, v: int): (DateTime, bool)
    requires Valid(t) && !u.WeekdayUnit?
  {
    match u
    case MonthUnit(_) => (SetMonths(t, v), true)
    case DayUnit(_) =>
      var next := SetDays(t, v);
      if next.day == v then (next, true)
      else (SetMonths(next, next.month), false)
    case HourUnit(_) => (SetHours(t, v), true)
    case MinuteUnit(_) => (SetMinutes(t, v), true)
    case SecondUnit(_) => (SetSeconds(t, v), true)
  }

  /**
   * `Next` of every unit: unchanged and true when there are no sets or the
   * first decisive set is Equal; the Greater set's value, true (for days: false
   * when that day is past the month's end); the parent rolled over, false,
   * when no set is decisive.
   */
  function Advance(u: TimeUnit, t: DateTime): (r: (DateTime, bool))
    requires Valid(t) && Evaluable(u)
    ensures Valid(r.0)
  {
    if |u.sets| == 0 then (t, true)
    else
      var i := FirstDecisive(u, t, 0);
      if i == |u.sets| then (Roll(u, t), false)
      else if Compare(u.sets[i], t, Field(u, t)) == OrderingEqual then (t, true)
      else Jump(u, t, Value(u.sets[i], t, Field(u, t)))
  }

  /** `Next`, as the early-exit scan over the sets the source runs. */
  method Next(u: TimeUnit, next: DateTime) returns (r: DateTime, ok: bool)
    requires Valid(next) && Evaluable(u)
    ensures (r, ok) == Advance(u, next)
  {
    if |u.sets| == 0 {
      return next, true;
    }
    var i := 0;
    while i < |u.sets|
      invariant 0 <= i <= |u.sets|
      invariant FirstDecisive(u, next, i) == FirstDecisive(u, next, 0)
    {
      var s := u.sets[i];
      var ordering := Compare(s, next, Field(u, next));
      ScanStep(u, next, i);
      if ordering == OrderingEqual {
        return next, true;
      }
      if ordering == OrderingGreater && !u.WeekdayUnit? {
        var jump := Jump(u, next, Value(s, next, Field(u, next)));
        return jump.0, jump.1;
      }
      i := i + 1;
    }
    return Roll(u, next), false;
  }

  /** One step of the scan: the set at i either decides it or passes it on. */
  lemma ScanStep(u: TimeUnit, t: DateTime, i: nat)
    requires Valid(t) && Evaluable(u) && i < |u.sets|
    ensures Decisive(u, u.sets[i], t) ==> FirstDecisive(u, t, i) == i
    ensures !Decisive(u, u.sets[i], t) ==> FirstDecisive(u, t, i) == FirstDecisive(u, t, i + 1)
    ensures var o := Compare(u.sets[i], t, Field(u, t));
      Decisive(u, u.sets[i], t) <==> o == OrderingEqual || (o == OrderingGreater && !u.WeekdayUnit?)
  {
  }

  /** The value a unit's field takes in t once the Greater branch has set it to v. */
  function Put(u: TimeUnit, t: DateTime, v: int): DateTime
    requires !u.WeekdayUnit?
  {
    match u
    case MonthUnit(_) => DateTime(t.year, v, 1, 0, 0, 0)
    case DayUnit(_) => DateTime(t.year, t.month, v, 0, 0, 0)
    case HourUnit(_) => t.(hour := v, minute := 0, second := 0)
    case MinuteUnit(_) => t.(minute := v, second := 0)
    case SecondUnit(_) => t.(second := v)
  }

  /** No set, or an Equal first decisive set: the instant is accepted as it is. */
  lemma AdvanceAccepts(u: TimeUnit, t: DateTime)
    requires Valid(t) && Evaluable(u)
    requires |u.sets| == 0 ||
      (FirstDecisive(u, t, 0) < |u.sets| && Compare(u.sets[FirstDecisive(u, t, 0)], t, Field(u, t)) == OrderingEqual)
    ensures Advance(u, t) == (t, true)
  {
  }

  /** No decisive set: the parent field is rolled over and the step fails. */
  lemma AdvanceRolls(u: TimeUnit, t: DateTime)
    requires Valid(t) && Evaluable(u)
    requires |u.sets| > 0 && FirstDecisive(u, t, 0) == |u.sets|
    ensures Advance(u, t) == (Roll(u, t), false)
    ensures forall j :: 0 <= j < |u.sets| ==> !Decisive(u, u.sets[j], t)
  {
  }

  /**
   * A Greater first decisive set: its value lies above the field and within
   * the field's domain; the field is set to it, every finer field zeroed and
   * every coarser one kept, and the step succeeds, except for a day past the
   * month's end, which yields midnight of the first of the next month and fails.
   */
  lemma AdvanceJumps(u: TimeUnit, t: DateTime)
    requires Valid(t) && Parsed(u) && Evaluable(u) && !u.WeekdayUnit?
    requires FirstDecisive(u, t, 0) < |u.sets|
    requires Compare(u.sets[FirstDecisive(u, t, 0)], t, Field(u, t)) == OrderingGreater
    ensures var v := Value(u.sets[FirstDecisive(u, t, 0)], t, Field(u, t));
      && Field(u, t) < v <= Max(u)
      && Advance(u, t) ==
        if u.DayUnit? && v > DaysIn(t.year, t.month) then
          (DateTime(NextMonth(t.year, t.month).0, NextMonth(t.year, t.month).1, 1, 0, 0, 0), false)
        else (Put(u, t, v), true)
  {
    var i := FirstDecisive(u, t, 0);
    var s := u.sets[i];
    var f := Field(u, t);
    GreaterAdvances(Conv(u), s, t, f);
    GreaterBounded(Conv(u), s, t, f, Min(u), Max(u));
    var v := Value(s, t, f);
    assert Advance(u, t) == Jump(u, t, v);
    JumpPut(u, t, v);
  }

  /** The Greater branch with a value above the field and within its domain. */
  lemma JumpPut(u: TimeUnit, t: DateTime, v: int)
    requires Valid(t) && !u.WeekdayUnit? && Field(u, t) < v <= Max(u)
    ensures Jump(u, t, v) ==
      if u.DayUnit? && v > DaysIn(t.year, t.month) then
        (DateTime(NextMonth(t.year, t.month).0, NextMonth(t.year, t.month).1, 1, 0, 0, 0), false)
      else (Put(u, t, v), true)
  {
    match u
    case MonthUnit(_) =>
    case DayUnit(_) =>
      if v > DaysIn(t.year, t.month) {
        var next := SetDays(t, v);
        MonthStep(t.year, t.month);
        assert next.day == v - DaysIn(t.year, t.month);
      }
    case HourUnit(_) =>
    case MinuteUnit(_) =>
    case SecondUnit(_) =>
  }

  /** `Next` never goes back: it keeps the instant and succeeds, or moves strictly later. */
  lemma AdvanceMonotone(u: TimeUnit, t: DateTime)
    requires Valid(t) && Parsed(u) && Evaluable(u)
    ensures Advance(u, t) == (t, true) || Before(t, Advance(u, t).0)
  {
    if |u.sets| > 0 {
      var i := FirstDecisive(u, t, 0);
      if i < |u.sets| && !u.WeekdayUnit? && Compare(u.sets[i], t, Field(u, t)) == OrderingGreater {
        AdvanceJumps(u, t);
        var v := Value(u.sets[i], t, Field(u, t));
        if u.DayUnit? && v > DaysIn(t.year, t.month) {
          NextMonthLater(t);
        } else {
          PutLater(u, t, v);
        }
      }
    }
  }

  /** Midnight of the first of the next month comes after every instant of this month. */
  lemma NextMonthLater(t: DateTime)
    requires Valid(t)
    ensures Before(t, DateTime(NextMonth(t.year, t.month).0, NextMonth(t.year, t.month).1, 1, 0, 0, 0))
  {
    MonthStep(t.year, t.month);
  }

  /** Setting a field to a larger value it can take (finer fields zeroed) moves the instant later. */
  lemma PutLater(u: TimeUnit, t: DateTime, v: int)
    requires Valid(t) && !u.WeekdayUnit? && Field(u, t) < v <= Max(u)
    requires u.DayUnit? ==> v <= DaysIn(t.year, t.month)
    ensures Before(t, Put(u, t, v))
  {
    if u.MonthUnit? {
      MonthStartGrows(t.year, t.month, v);
    }
  }

  /** A field agrees up to depth k: year, month, day, hour, minute, second, in that order. */
  predicate Agree(a: DateTime, b: DateTime, k: nat) {
    && (k >= 1 ==> a.year == b.year)
    && (k >= 2 ==> a.month == b.month)
    && (k >= 3 ==> a.day == b.day)
    && (k >= 4 ==> a.hour == b.hour)
    && (k >= 5 ==> a.minute == b.minute)
    && (k >= 6 ==> a.second == b.second)
  }

  /** How many leading fields a successful `Next` of the unit leaves unchanged. */
  function Keeps(u: TimeUnit): nat {
    match u
    case MonthUnit(_) => 1
    case DayUnit(_) => 2
    case WeekdayUnit(_) => 6
    case HourUnit(_) => 3
    case MinuteUnit(_) => 4
    case SecondUnit(_) => 5
  }

  /** How many leading fields decide whether the unit is matched. */
  function Depends(u: TimeUnit): nat {
    match u
    case MonthUnit(_) => 2
    case DayUnit(_) => 3
    case WeekdayUnit(_) => 3
    case HourUnit(_) => 4
    case MinuteUnit(_) => 5
    case SecondUnit(_) => 6
  }

  /** A successful `Next` leaves the unit's coarser fields as they were. */
  lemma AdvanceKeeps(u: TimeUnit, t: DateTime)
    requires Valid(t) && Parsed(u) && Evaluable(u) && Advance(u, t).1
    ensures Agree(t, Advance(u, t).0, Keeps(u))
  {
    if |u.sets| > 0 {
      var i := FirstDecisive(u, t, 0);
      if i < |u.sets| && !u.WeekdayUnit? && Compare(u.sets[i], t, Field(u, t)) == OrderingGreater {
        AdvanceJumps(u, t);
      }
    }
  }

  /** Whether a unit is matched depends only on the first Depends(u) fields. */
  lemma MatchedDepends(u: TimeUnit, a: DateTime, b: DateTime)
    requires Valid(a) && Valid(b) && Parsed(u) && Evaluable(u) && Agree(a, b, Depends(u))
    ensures Matched(u, a) <==> Matched(u, b)
  {
    FieldDepends(u, a, b);
    forall j | 0 <= j < |u.sets|
      ensures Admits(u.sets[j], a, Field(u, a)) <==> Admits(u.sets[j], b, Field(u, b))
    {
      SameMonthCompare(Conv(u), u.sets[j], a, b, Field(u, a));
    }
  }

  /** Agreeing up to Depends(u) fixes the unit's field and whatever its converter reads of the date. */
  lemma FieldDepends(u: TimeUnit, a: DateTime, b: DateTime)
    requires Valid(a) && Valid(b) && Agree(a, b, Depends(u))
    ensures Field(u, a) == Field(u, b)
    ensures Conv(u) != UnitConverter ==> a.year == b.year && a.month == b.month
    ensures Conv(u) == WeekDayConverter ==> a.day == b.day
  {
    if u.WeekdayUnit? {
      assert a == b.(hour := a.hour, minute := a.minute, second := a.second);
    }
  }

  /** After a successful `Next`, the unit's field is matched. */
  lemma AdvanceMatches(u: TimeUnit, t: DateTime)
    requires Valid(t) && WellFormed(u) && Advance(u, t).1
    ensures Matched(u, Advance(u, t).0)
  {
    if |u.sets| > 0 {
      var i := FirstDecisive(u, t, 0);
      var s := u.sets[i];
      var f := Field(u, t);
      if !u.WeekdayUnit? && Compare(s, t, f) == OrderingGreater {
        AdvanceJumps(u, t);
        var v := Value(s, t, f);
        var r := Advance(u, t).0;
        GreaterAdmitted(Conv(u), s, t, f);
        SameMonthCompare(Conv(u), s, t, r, v);
        assert Field(u, r) == v;
        assert Admits(s, r, Field(u, r));
      } else {
        assert Admits(s, t, f);
      }
    }
  }

  /**
   * For units and ranges sorted by their lower ends, the forward scan finds
   * the least matched value: a Greater verdict points at the least value
   * above the field matched by any set, and no decisive set means no set
   * matches any value at or above the field.
   */
  lemma ScanFindsLeast(u: TimeUnit, t: DateTime)
    requires Valid(t) && WellFormed(u) && !u.WeekdayUnit?
    requires SortedByKey(u.sets) && forall j :: 0 <= j < |u.sets| ==> !u.sets[j].Interval?
    ensures var i := FirstDecisive(u, t, 0);
      i < |u.sets| && Compare(u.sets[i], t, Field(u, t)) == OrderingGreater ==>
        forall j, w :: 0 <= j < |u.sets| && Field(u, t) < w && Admits(u.sets[j], t, w) ==>
          Value(u.sets[i], t, Field(u, t)) <= w
    ensures FirstDecisive(u, t, 0) == |u.sets| ==>
      forall j, w :: 0 <= j < |u.sets| && Field(u, t) <= w ==> !Admits(u.sets[j], t, w)
  {
    var i := FirstDecisive(u, t, 0);
    var f := Field(u, t);
    forall j, w | 0 <= j < |u.sets| && f <= w && j < i
      ensures !Admits(u.sets[j], t, w)
    {
      LessExcludesAbove(Conv(u), u.sets[j], t, f, w);
    }
    if i < |u.sets| && Compare(u.sets[i], t, f) == OrderingGreater {
      forall j, w | 0 <= j < |u.sets| && f < w && Admits(u.sets[j], t, w)
        ensures Value(u.sets[i], t, f) <= w
      {
        if j == i {
          GreaterIsLeast(Conv(u), u.sets[i], t, f, w);
        } else if j > i {
          AdmitsAboveKey(u.sets[j], t, w);
          assert Value(u.sets[i], t, f) == Key(u.sets[i]);
        }
      }
    }
  }

  /**
   * With an interval the first Greater set need not give the least value:
   * for seconds `10/20,15` at second 12 the scan jumps to 30 although 15 matches.
   */
  lemma IntervalFirstNotLeast()
    ensures var t := DateTime(2023, 6, 4, 0, 0, 12);
      var u := SecondUnit([Interval(Unit(10), Unit(59), 20), Unit(15)]);
      && Advance(u, t) == (DateTime(2023, 6, 4, 0, 0, 30), true)
      && Admits(Unit(15), t, 15) && 12 < 15 < 30
  {
    var t := DateTime(2023, 6, 4, 0, 0, 12);
    var s := Interval(Unit(10), Unit(59), 20);
    assert (12 - 10) % 20 == 2;
    assert Value(s, t, 12) == 30;
    assert Compare(s, t, 12) == OrderingGreater;
    var u := SecondUnit([s, Unit(15)]);
    ScanStep(u, t, 0);
    assert FirstDecisive(u, t, 0) == 0;
    JumpPut(u, t, 30);
  }

  /**
   * The parser accepts a descending range such as `10-5` on seconds; from a
   * second at or below its end the scan jumps to its start and reports
   * success, although the start does not match.
   */
  lemma DescendingUnmatched(t: DateTime, a: int, b: int)
    requires Valid(t) && t.second <= b < a <= 59
    ensures var u := SecondUnit([Range(Unit(a), Unit(b))]);
      && Parsed(u) && Evaluable(u)
      && Advance(u, t) == (t.(second := a), true)
      && !Matched(u, t.(second := a))
  {
    var s := Range(Unit(a), Unit(b));
    var u := SecondUnit([s]);
    var r := t.(second := a);
    assert StepsNonZero(Unit(a)) && StepsNonZero(Unit(b));
    assert StepsNonZero(s) && u.sets[0] == s;
    RangeCompareSpec(s, t, t.second);
    RangeCompareSpec(s, r, a);
    ScanStep(u, t, 0);
    JumpPut(u, t, a);
    assert !Admits(s, r, a);
  }

  /**
   * `Less` orders neither `L` before a day d nor d before `L`, so the day field
   * `L,d` may stay in that order; scanned so, a day before d jumps to the month's
   * last day, skipping midnight of day d, which matches.
   */
  lemma LastDaySkips(t: DateTime, d: int)
    requires Valid(t) && t.day < d < DaysIn(t.year, t.month)
    ensures !Less(NthLastDayOfMonth(0), Unit(d)) && !Less(Unit(d), NthLastDayOfMonth(0))
    ensures var u := DayUnit([NthLastDayOfMonth(0), Unit(d)]);
      var skipped := DateTime(t.year, t.month, d, 0, 0, 0);
      && Parsed(u) && Evaluable(u)
      && Advance(u, t) == (DateTime(t.year, t.month, DaysIn(t.year, t.month), 0, 0, 0), true)
      && Valid(skipped) && Before(t, skipped) && Matched(u, skipped)
  {
    var u := DayUnit([NthLastDayOfMonth(0), Unit(d)]);
    var skipped := DateTime(t.year, t.month, d, 0, 0, 0);
    NthLastDaySpec(0, t, t.day);
    ScanStep(u, t, 0);
    JumpPut(u, t, DaysIn(t.year, t.month));
    assert Admits(u.sets[1], skipped, d);
  }

  /** A set that stops the backward scan: not Greater (for weekdays: Equal). */
  predicate BackDecisive(u: TimeUnit, s: TimeSet, t: DateTime)
    requires Valid(t) && StepsNonZero(s)
  {
    if u.WeekdayUnit? then Compare(s, t, Field(u, t)) == OrderingEqual
    else Compare(s, t, Field(u, t)) != OrderingGreater
  }

  /** Index of the last back-decisive set below `upto`, or -1 when there is none. */
  function LastDecisive(u: TimeUnit, t: DateTime, upto: nat): (i: int)
    requires Valid(t) && Evaluable(u) && upto <= |u.sets|
    ensures -1 <= i < upto
    ensures forall j :: i < j < upto ==> !BackDecisive(u, u.sets[j], t)
    ensures i >= 0 ==> BackDecisive(u, u.sets[i], t)
    decreases upto
  {
    if upto == 0 then -1
    else
      var k := upto - 1;
      if BackDecisive(u, u.sets[k], t) then k
      else LastDecisive(u, t, k)
  }

  /**
   * The `false` branch of `Previous`: the last second before the start of
   * the parent field's current value (for weekdays: midnight of the day before).
   */
  function Fallback(u: TimeUnit, t: DateTime): (r: DateTime)
    requires Valid(t)
    ensures Valid(r) && Before(r, t)
    ensures match u
      case SecondUnit(_) => Instant(r) + 1 == Instant(t) - t.second
      case MinuteUnit(_) => Instant(r) + 1 == Instant(t) - t.minute * 60 - t.second
      case HourUnit(_) => Instant(r) + 1 == DayNumber(t.year, t.month, t.day) * 86400
      case DayUnit(_) => Instant(r) + 1 == DayNumber(t.year, t.month, 1) * 86400
      case MonthUnit(_) => Instant(r) + 1 == DayNumber(t.year, 1, 1) * 86400
      case WeekdayUnit(_) => Instant(r) == (DayNumber(t.year, t.month, t.day) - 1) * 86400
  {
    match u
    case SecondUnit(_) => FallbackMinute(t); AddSeconds(SetSeconds(t, 0), -1)
    case MinuteUnit(_) => FallbackHour(t); AddSeconds(SetMinutes(t, 0), -1)
    case HourUnit(_) => FallbackDay(t); AddSeconds(SetHours(t, 0), -1)
    case DayUnit(_) => FallbackMonth(t); AddSeconds(SetDays(t, 1), -1)
    case MonthUnit(_) => FallbackYear(t); AddSeconds(SetMonths(t, 1), -1)
    case WeekdayUnit(_) => FallbackWeekday(t); SetDays(t, t.day - 1)
  }

  /** The Fallback of each kind of unit, one lemma per kind to keep each proof small. */
  lemma FallbackMinute(t: DateTime)
    requires Valid(t)
    ensures var r := AddSeconds(SetSeconds(t, 0), -1); Before(r, t) && Instant(r) + 1 == Instant(t) - t.second
  {
  }

  lemma FallbackHour(t: DateTime)
    requires Valid(t)
    ensures var r := AddSeconds(SetMinutes(t, 0), -1); Before(r, t) && Instant(r) + 1 == Instant(t) - t.minute * 60 - t.second
  {
  }

  lemma FallbackDay(t: DateTime)
    requires Valid(t)
    ensures var r := AddSeconds(SetHours(t, 0), -1); Before(r, t) && Instant(r) + 1 == DayNumber(t.year, t.month, t.day) * 86400
  {
  }

  lemma FallbackMonth(t: DateTime)
    requires Valid(t)
    ensures var r := AddSeconds(SetDays(t, 1), -1); Before(r, t) && Instant(r) + 1 == DayNumber(t.year, t.month, 1) * 86400
  {
  }

  lemma FallbackYear(t: DateTime)
    requires Valid(t)
    ensures var r := AddSeconds(SetMonths(t, 1), -1); Before(r, t) && Instant(r) + 1 == DayNumber(t.year, 1, 1) * 86400
  {
    var first := SetMonths(t, 1);
    assert first == DateTime(t.year, 1, 1, 0, 0, 0);
    assert Instant(first) == DayNumber(t.year, 1, 1) * 86400;
    assert DayNumber(t.year, 1, 1) <= DayNumber(t.year, t.month, t.day);
  }

  lemma FallbackWeekday(t: DateTime)
    requires Valid(t)
    ensures var r := SetDays(t, t.day - 1); Before(r, t) && Instant(r) == (DayNumber(t.year, t.month, t.day) - 1) * 86400
  {
  }

  /** The `orderingLess` branch of `Previous` for a value v of the field. */
  function JumpBack(u: TimeUnit, t: DateTime, v: int): DateTime
    requires Valid(t) && !u.WeekdayUnit?
  {
    match u
    case MonthUnit(_) => SetMonths(t, v)
    case DayUnit(_) => SetDays(t, v)
    case HourUnit(_) => SetHours(t, v)
    case MinuteUnit(_) => SetMinutes(t, v)
    case SecondUnit(_) => SetSeconds(t, v)
  }

  /**
   * `Previous` of every unit, as written: unchanged and true when there are
   * no sets or the last back-decisive set is Equal; the Less set's `Value`,
   * true; the fallback, false, when no set is back-decisive.
   */
  function Retreat(u: TimeUnit, t: DateTime): (r: (DateTime, bool))
    requires Valid(t) && Evaluable(u)
    ensures Valid(r.0)
  {
    if |u.sets| == 0 then (t, true)
    else
      var i := LastDecisive(u, t, |u.sets|);
      if i < 0 then (Fallback(u, t), false)
      else if Compare(u.sets[i], t, Field(u, t)) == OrderingEqual then (t, true)
      else (JumpBack(u, t, Value(u.sets[i], t, Field(u, t))), true)
  }

  /** `Previous`, as the backward early-exit scan the source runs. */
  method Previous(u: TimeUnit, before: DateTime) returns (r: DateTime, ok: bool)
    requires Valid(before) && Evaluable(u)
    ensures (r, ok) == Retreat(u, before)
  {
    if |u.sets| == 0 {
      return before, true;
    }
    var i := |u.sets| - 1;
    while i >= 0
      invariant -1 <= i < |u.sets|
      invariant LastDecisive(u, before, i + 1) == LastDecisive(u, before, |u.sets|)
    {
      var s := u.sets[i];
      var ordering := Compare(s, before, Field(u, before));
      if ordering == OrderingEqual {
        return before, true;
      }
      if ordering == OrderingLess && !u.WeekdayUnit? {
        return JumpBack(u, before, Value(s, before, Field(u, before))), true;
      }
      i := i - 1;
    }
    return Fallback(u, before), false;
  }

  /** With no back-decisive set, `Previous` fails at a strictly earlier instant. */
  lemma RetreatFallsBack(u: TimeUnit, t: DateTime)
    requires Valid(t) && Evaluable(u)
    requires |u.sets| > 0 && LastDecisive(u, t, |u.sets|) == -1
    ensures Retreat(u, t) == (Fallback(u, t), false) && Before(Retreat(u, t).0, t)
  {
  }
}

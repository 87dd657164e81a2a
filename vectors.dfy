/**
 * The two documented uses of the evaluator: every fifteen seconds, and the
 * last Friday of every month at midnight, each asked twice for its next
 * activation after midnight of June 4th, 2023. Each is proved for a whole
 * family of start times first, and the documented dates are instances.
 */
module Vectors {
  import opened Wrappers
  import opened Calendar
  import opened TimeSets
  import opened TimeUnits
  import opened Cron
  import Text
  import Parser
  import Results

  /** The time one second later, when that stays within the minute. */
  lemma NextSecond(t: DateTime)
    requires Valid(t) && t.second < 59
    ensures AddSeconds(t, 1) == t.(second := t.second + 1)
  {
  }

  /** A unit with no sets, or only `?`, accepts every instant as it is. */
  lemma Accepts(u: TimeUnit, t: DateTime)
    requires Valid(t) && (u.sets == [] || u.sets == [NotSpecified])
    ensures Advance(u, t) == (t, true)
  {
    if u.sets != [] {
      assert Decisive(u, u.sets[0], t);
      assert FirstDecisive(u, t, 0) == 0;
    }
  }

  // The schedule of `*/15 * * * ? *`: month `?`, seconds from 0 to 59 by 15.
  const EveryFifteen: seq<TimeUnit> := [
    MonthUnit([NotSpecified]), DayUnit([]), WeekdayUnit([]),
    HourUnit([]), MinuteUnit([]), SecondUnit([Interval(Unit(0), Unit(59), 15)])]

  // The seconds unit of `*/15` moves the second up to the next multiple of 15 below 60.
  lemma QuarterMinute(t: DateTime, v: int)
    requires Valid(t) && 0 < t.second && v == (t.second + 14) / 15 * 15 && v < 60
    ensures Advance(EveryFifteen[5], t) == (t.(second := v), true)
  {
    var u := EveryFifteen[5];
    var s := u.sets[0];
    assert Value(s, t, t.second) == v;
    assert Compare(s, t, t.second) == if v == t.second then OrderingEqual else OrderingGreater;
    assert FirstDecisive(u, t, 0) == 0;
  }

  /** With every coarser unit accepting, one pass of the schedule is the seconds unit's step. */
  lemma FifteenPass(t: DateTime)
    requires Valid(t)
    ensures Runnable(EveryFifteen)
    ensures Sweep(EveryFifteen, 0, t) == Advance(EveryFifteen[5], t)
  {
    var u := EveryFifteen;
    Accepts(u[0], t);
    Accepts(u[1], t);
    Accepts(u[2], t);
    Accepts(u[3], t);
    Accepts(u[4], t);
    SweepStep(u, 0, t);
    SweepStep(u, 1, t);
    SweepStep(u, 2, t);
    SweepStep(u, 3, t);
    SweepStep(u, 4, t);
    SweepStep(u, 5, t);
  }

  /** Before second 45, the next activation is the next quarter of the minute, found in one pass. */
  lemma EveryFifteenSeconds(t: DateTime)
    requires Valid(t) && t.second < 45
    ensures Runnable(EveryFifteen)
    ensures Settle(EveryFifteen, AddSeconds(t, 1), 0) == Some(t.(second := (t.second + 15) / 15 * 15))
  {
    NextSecond(t);
    var a := t.(second := t.second + 1);
    FifteenPass(a);
    QuarterMinute(a, (t.second + 15) / 15 * 15);
  }

  /** Sorting a field of at most one set leaves it as it is. */
  lemma SortedShort(s: seq<TimeSet>, orig: seq<TimeSet>)
    requires Parser.SortedOf(s, orig) && |orig| <= 1
    ensures s == orig
  {
    assert |s| == |multiset(s)| == |orig|;
    if |orig| == 1 {
      assert s[0] in multiset(orig);
    }
  }

  /** The six fields of an expression read to the given sets, in reading order. */
  lemma ReadsAs(parts: seq<string>, f: seq<seq<TimeSet>>)
    requires |parts| == 6 && |f| == 6
    requires Parser.FieldResult(parts, 0) == Ok(f[0]) && Parser.FieldResult(parts, 1) == Ok(f[1])
    requires Parser.FieldResult(parts, 2) == Ok(f[2]) && Parser.FieldResult(parts, 3) == Ok(f[3])
    requires Parser.FieldResult(parts, 4) == Ok(f[4]) && Parser.FieldResult(parts, 5) == Ok(f[5])
    ensures Parser.ReadFields(parts) == Ok(f)
  {
    var rs := Parser.FieldOutcomes(parts);
    forall k | 0 <= k < 6
      ensures rs[k] == Ok(f[k])
    {
      assert rs[k] == Parser.FieldOutcome(parts, k);
    }
    Results.CollectOk(rs);
    var v := Results.Collect(rs).value;
    assert forall k :: 0 <= k < 6 ==> v[k] == f[k];
    assert v == f;
  }

  /** A field of one token without a comma reads as that token alone. */
  lemma OneToken(u: string, c: Converter, min: int, max: int)
    requires ',' !in u && u != "*" && u != "?"
    ensures Parser.FieldSets(u, c, min, max) ==
      match Parser.ParseToken(u, c, min, max)
      case Ok(s) => Ok([s])
      case Err(e) => Err(e)
  {
    Text.SplitWhole(u, ',');
    var rs := Parser.TokenResults([u], c, min, max);
    assert rs == [Parser.ParseToken(u, c, min, max)];
    assert Results.Collect(rs[1..]) == Ok([]);
    if rs[0].Ok? {
      assert [rs[0].value] + [] == [rs[0].value];
    }
  }

  // The expression of the fifteen-second example.
  const FifteenExpr: string := "*/15 * * * ? *"

  // The fields of `*/15 * * * ? *` in reading order: weekdays, months, days, hours, minutes, seconds.
  const FifteenFields: seq<seq<TimeSet>> := [[], [NotSpecified], [], [], [], [Interval(Unit(0), Unit(59), 15)]]

  lemma FifteenSplit()
    ensures Text.Split("*/15 * * * ? *", ' ') == ["*/15", "*", "*", "*", "?", "*"]
  {
    var parts := ["*/15", "*", "*", "*", "?", "*"];
    assert Text.Join(parts, ' ') == "*/15 * * * ? *";
    Text.SplitJoin(parts, ' ');
  }

  lemma FifteenSeconds()
    ensures Parser.FieldSets("*/15", UnitConverter, 0, 59) == Ok([Interval(Unit(0), Unit(59), 15)])
  {
    var u := "*/" + Text.Itoa(15);
    assert Text.Itoa(15) == "15";
    assert u == "*/15";
    Parser.EveryStepToken(15, UnitConverter, 0, 59);
    OneToken(u, UnitConverter, 0, 59);
  }

  lemma FifteenReads()
    ensures Parser.Reading(FifteenExpr) == Ok(FifteenFields)
  {
    var parts := ["*/15", "*", "*", "*", "?", "*"];
    FifteenSplit();
    FifteenSeconds();
    ReadsAs(parts, FifteenFields);
  }

  /**
   * An expression whose fields read to at most one set each is parsed into
   * the units holding those sets, in parse order.
   */
  lemma ParsedAs(expression: string, f: seq<seq<TimeSet>>, schedule: Schedule, err: Option<Errors.Error>)
    requires Parser.Reading(expression) == Ok(f) && Parser.ParsedFrom(expression, schedule, err)
    requires |f| == 6 && |f[0]| <= 1 && |f[1]| <= 1 && |f[2]| <= 1 && |f[3]| <= 1 && |f[4]| <= 1 && |f[5]| <= 1
    ensures schedule.timeUnits == [MonthUnit(f[1]), DayUnit(f[2]), WeekdayUnit(f[0]), HourUnit(f[3]), MinuteUnit(f[4]), SecondUnit(f[5])]
    ensures err == if Parser.HasNotSpecified(f[0]) && Parser.HasNotSpecified(f[2]) then Some(Errors.ErrMultipleNotSpecified) else None
  {
    var u := schedule.timeUnits;
    SortedShort(u[0].sets, f[1]);
    SortedShort(u[1].sets, f[2]);
    SortedShort(u[2].sets, f[0]);
    SortedShort(u[3].sets, f[3]);
    SortedShort(u[4].sets, f[4]);
    SortedShort(u[5].sets, f[5]);
  }

  // Parsing `*/15 * * * ? *` yields exactly the schedule above, and no error.
  lemma EveryFifteenParsed(schedule: Schedule, err: Option<Errors.Error>)
    requires Parser.ParsedFrom(FifteenExpr, schedule, err)
    ensures err == None && schedule.timeUnits == EveryFifteen
  {
    FifteenReads();
    ParsedAs(FifteenExpr, FifteenFields, schedule, err);
  }

  /** From 2023-06-04 00:00:00 the schedule fires first at 00:00:15. */
  lemma FirstQuarter(t: DateTime)
    requires t == DateTime(2023, 6, 4, 0, 0, 0)
    ensures Runnable(EveryFifteen)
    ensures Settle(EveryFifteen, AddSeconds(t, 1), 0) == Some(DateTime(2023, 6, 4, 0, 0, 15))
  {
    EveryFifteenSeconds(t);
  }

  /** From 2023-06-04 00:00:15 the schedule fires next at 00:00:30. */
  lemma SecondQuarter(t: DateTime)
    requires t == DateTime(2023, 6, 4, 0, 0, 15)
    ensures Runnable(EveryFifteen)
    ensures Settle(EveryFifteen, AddSeconds(t, 1), 0) == Some(DateTime(2023, 6, 4, 0, 0, 30))
  {
    EveryFifteenSeconds(t);
  }

  // The schedule of `0 0 0 ? * 5L`: midnight of the last Friday of every month.
  const LastFridays: seq<TimeUnit> := [
    MonthUnit([]), DayUnit([NotSpecified]), WeekdayUnit([LastWeekDayOfMonth(5)]),
    HourUnit([Unit(0)]), MinuteUnit([Unit(0)]), SecondUnit([Unit(0)])]

  // The expression of the last-Friday example.
  const FridayExpr: string := "0 0 0 ? * 5L"

  // The fields of `0 0 0 ? * 5L` in reading order: weekdays, months, days, hours, minutes, seconds.
  const FridayFields: seq<seq<TimeSet>> := [[LastWeekDayOfMonth(5)], [], [NotSpecified], [Unit(0)], [Unit(0)], [Unit(0)]]

  lemma FridaySplit()
    ensures Text.Split("0 0 0 ? * 5L", ' ') == ["0", "0", "0", "?", "*", "5L"]
  {
    var parts := ["0", "0", "0", "?", "*", "5L"];
    assert Text.Join(parts, ' ') == "0 0 0 ? * 5L";
    Text.SplitJoin(parts, ' ');
  }

  /** A field reading `0` holds the single value 0 whenever 0 is in its domain. */
  lemma ZeroField(min: int, max: int)
    requires min <= 0 <= max
    ensures Parser.FieldSets("0", UnitConverter, min, max) == Ok([Unit(0)])
  {
    var u := Text.Itoa(0);
    assert u == "0";
    Parser.UnitToken(0, min, max);
    OneToken(u, UnitConverter, min, max);
  }

  lemma FridayWeekdays()
    ensures Parser.FieldSets("5L", WeekDayConverter, 0, 6) == Ok([LastWeekDayOfMonth(5)])
  {
    var u := Text.Itoa(5) + "L";
    assert Text.Itoa(5) == "5";
    assert u == "5L";
    Parser.WeekdayLastTokens(5);
    OneToken(u, WeekDayConverter, 0, 6);
  }

  lemma FridayReads()
    ensures Parser.Reading(FridayExpr) == Ok(FridayFields)
  {
    var parts := ["0", "0", "0", "?", "*", "5L"];
    FridaySplit();
    FridayWeekdays();
    ZeroField(0, 23);
    ZeroField(0, 59);
    ReadsAs(parts, FridayFields);
  }

  // Parsing `0 0 0 ? * 5L` yields exactly the schedule above, and no error.
  lemma LastFridaysParsed(schedule: Schedule, err: Option<Errors.Error>)
    requires Parser.ParsedFrom(FridayExpr, schedule, err)
    ensures err == None && schedule.timeUnits == LastFridays
  {
    FridayReads();
    ParsedAs(FridayExpr, FridayFields, schedule, err);
  }

  /** The day of month y/m that `5L` stands for: back from the last day to its Friday. */
  function LastFriday(y: int, m: int): int
    requires 1 <= m <= 12
  {
    DaysIn(y, m) - (Weekday(DateTime(y, m, DaysIn(y, m), 0, 0, 0)) + 2) % 7
  }

  /** `5L` stands for the last Friday of the month: a Friday among its last seven days. */
  lemma FridayBound(y: int, m: int)
    requires 1 <= m <= 12
    ensures var d := LastFriday(y, m);
      && DaysIn(y, m) - 7 < d <= DaysIn(y, m)
      && Weekday(DateTime(y, m, d, 0, 0, 0)) == 5
  {
    var t := DateTime(y, m, 1, 0, 0, 0);
    LastWeekDaySpec(5, t, 0);
    assert LastFriday(y, m) == Value(LastWeekDayOfMonth(5), t, 0);
  }

  /** Looked at from any day of the month, `5L` compares that day with the month's last Friday. */
  lemma FridayCompare(t: DateTime)
    requires Valid(t)
    ensures Compare(LastWeekDayOfMonth(5), t, Weekday(t)) == CompareInt(LastFriday(t.year, t.month), t.day)
  {
    var last := LastDayOfMonth(t);
    FridayShift(Weekday(last));
    assert LastFriday(t.year, t.month) == Value(LastWeekDayOfMonth(5), t, Weekday(t));
  }

  /** Going back from weekday wd to the nearest Friday at or before it takes (wd + 2) % 7 days. */
  lemma FridayShift(wd: int)
    requires 0 <= wd < 7
    ensures (wd + 2) % 7 == if wd - 5 < 0 then wd - 5 + 7 else wd - 5
  {
  }

  /** A unit with one set, at an instant where that set is Equal, accepts the instant. */
  lemma Holds(u: TimeUnit, t: DateTime)
    requires Valid(t) && Evaluable(u) && |u.sets| == 1
    requires Compare(u.sets[0], t, Field(u, t)) == OrderingEqual
    ensures Advance(u, t) == (t, true)
  {
    ScanStep(u, t, 0);
    AdvanceAccepts(u, t);
  }

  /** A unit with one set that is not decisive at t rolls its parent field over. */
  lemma Rolls(u: TimeUnit, t: DateTime)
    requires Valid(t) && Evaluable(u) && |u.sets| == 1
    requires !Decisive(u, u.sets[0], t)
    ensures Advance(u, t) == (Roll(u, t), false)
  {
    ScanStep(u, t, 0);
    AdvanceRolls(u, t);
  }

  /** Midnight of the day after day d of month y/m, which is in the next month after the last day. */
  function Tomorrow(y: int, m: int, d: int): DateTime
    requires 1 <= m <= 12
  {
    if d < DaysIn(y, m) then DateTime(y, m, d + 1, 0, 0, 0)
    else DateTime(NextMonth(y, m).0, NextMonth(y, m).1, 1, 0, 0, 0)
  }

  /** Rolling the day over (the weekday and hour units' `false` branch) gives the next midnight. */
  lemma NextMidnight(u: TimeUnit, t: DateTime)
    requires Valid(t) && (u.WeekdayUnit? || u.HourUnit?)
    ensures Roll(u, t) == Tomorrow(t.year, t.month, t.day)
  {
    var r := SetDays(t, t.day + 1);
    assert Roll(u, t) == r;
  }

  /** Month `*` and day `?` accept every instant. */
  lemma FridayHead(t: DateTime)
    requires Valid(t)
    ensures Runnable(LastFridays)
    ensures Sweep(LastFridays, 0, t) == Sweep(LastFridays, 2, t)
  {
    Accepts(LastFridays[0], t);
    Accepts(LastFridays[1], t);
    SweepStep(LastFridays, 0, t);
    SweepStep(LastFridays, 1, t);
  }

  /** On any other day than the last Friday, `5L` rolls the day over. */
  lemma WeekdayRoll(t: DateTime)
    requires Valid(t) && t.day != LastFriday(t.year, t.month)
    ensures Advance(LastFridays[2], t) == (Roll(LastFridays[2], t), false)
  {
    FridayCompare(t);
    Rolls(LastFridays[2], t);
  }

  /** On any other day than the last Friday, a pass stops at the weekday unit and moves on to the next midnight. */
  lemma DayRoll(t: DateTime)
    requires Valid(t) && t.day != LastFriday(t.year, t.month)
    ensures Runnable(LastFridays)
    ensures Sweep(LastFridays, 0, t) == (Tomorrow(t.year, t.month, t.day), false)
  {
    FridayHead(t);
    WeekdayRoll(t);
    NextMidnight(LastFridays[2], t);
    SweepStep(LastFridays, 2, t);
  }

  /** On the last Friday the weekday unit accepts; the clock units are left to check. */
  lemma OnFriday(t: DateTime)
    requires Valid(t) && t.day == LastFriday(t.year, t.month)
    ensures Runnable(LastFridays)
    ensures Sweep(LastFridays, 0, t) == Sweep(LastFridays, 3, t)
  {
    FridayHead(t);
    FridayCompare(t);
    Holds(LastFridays[2], t);
    SweepStep(LastFridays, 2, t);
  }

  /** Midnight of the last Friday goes through the whole schedule. */
  lemma FridayMidnight(t: DateTime)
    requires Valid(t) && t.day == LastFriday(t.year, t.month) && t.hour == 0 && t.minute == 0 && t.second == 0
    ensures Runnable(LastFridays)
    ensures Sweep(LastFridays, 0, t) == (t, true)
  {
    OnFriday(t);
    Holds(LastFridays[3], t);
    Holds(LastFridays[4], t);
    Holds(LastFridays[5], t);
    SweepStep(LastFridays, 3, t);
    SweepStep(LastFridays, 4, t);
    SweepStep(LastFridays, 5, t);
  }

  /**
   * A schedule that, from midnight of any day of month y/m, goes through on
   * day w and moves on to the next midnight on every other day.
   */
  predicate Daily(units: seq<TimeUnit>, y: int, m: int, w: int)
    requires 1 <= m <= 12 && Runnable(units)
  {
    && 1 <= w <= DaysIn(y, m)
    && Sweep(units, 0, DateTime(y, m, w, 0, 0, 0)) == (DateTime(y, m, w, 0, 0, 0), true)
    && forall d {:trigger Sweep(units, 0, DateTime(y, m, d, 0, 0, 0))} :: 1 <= d <= DaysIn(y, m) && d != w ==>
      Sweep(units, 0, DateTime(y, m, d, 0, 0, 0)) == (Tomorrow(y, m, d), false)
  }

  /** `0 0 0 ? * 5L` goes through at midnight of the last Friday and moves on a day at a time otherwise. */
  lemma FridaysDaily(y: int, m: int)
    requires 1 <= m <= 12
    ensures Runnable(LastFridays) && Daily(LastFridays, y, m, LastFriday(y, m))
  {
    FridayBound(y, m);
    forall d | 1 <= d <= DaysIn(y, m) && d != LastFriday(y, m)
      ensures Sweep(LastFridays, 0, DateTime(y, m, d, 0, 0, 0)) == (Tomorrow(y, m, d), false)
    {
      DayRoll(DateTime(y, m, d, 0, 0, 0));
    }
    FridayMidnight(DateTime(y, m, LastFriday(y, m), 0, 0, 0));
  }

  /** On a day other than w, the search spends one pass and moves on to the next midnight. */
  lemma DayStep(units: seq<TimeUnit>, y: int, m: int, w: int, d: int, fuel: nat)
    requires 1 <= m <= 12 && Runnable(units) && Daily(units, y, m, w)
    requires 1 <= d <= DaysIn(y, m) && d != w && fuel > 0
    ensures d < DaysIn(y, m) ==> Settle(units, DateTime(y, m, d, 0, 0, 0), fuel) == Settle(units, DateTime(y, m, d + 1, 0, 0, 0), fuel - 1)
    ensures d == DaysIn(y, m) ==>
      Settle(units, DateTime(y, m, d, 0, 0, 0), fuel) == Settle(units, DateTime(NextMonth(y, m).0, NextMonth(y, m).1, 1, 0, 0, 0), fuel - 1)
  {
    var t := DateTime(y, m, d, 0, 0, 0);
    assert Sweep(units, 0, t) == (Tomorrow(y, m, d), false);
    SettleRolls(units, t, fuel, Tomorrow(y, m, d));
  }

  /** From midnight of a day up to w, the search for a daily schedule arrives at midnight of day w, one pass per day. */
  lemma {:induction false} Walk(units: seq<TimeUnit>, y: int, m: int, w: int, d: int, fuel: nat)
    requires 1 <= m <= 12 && Runnable(units) && Daily(units, y, m, w)
    requires 1 <= d <= w && fuel >= w - d
    ensures Settle(units, DateTime(y, m, d, 0, 0, 0), fuel) == Some(DateTime(y, m, w, 0, 0, 0))
    decreases w - d
  {
    var t := DateTime(y, m, d, 0, 0, 0);
    if d == w {
      SettleDone(units, t, fuel, t);
    } else {
      DayStep(units, y, m, w, d, fuel);
      Walk(units, y, m, w, d + 1, fuel - 1);
    }
  }

  /**
   * From midnight of a day after w, the search runs to the end of the month
   * and on to day w' of the next month, one pass per day.
   */
  lemma {:induction false} WalkOut(units: seq<TimeUnit>, y: int, m: int, w: int, d: int, w': int, fuel: nat)
    requires 1 <= m <= 12 && Runnable(units) && Daily(units, y, m, w) && w < d <= DaysIn(y, m)
    requires Daily(units, NextMonth(y, m).0, NextMonth(y, m).1, w')
    requires fuel >= DaysIn(y, m) - d + w'
    ensures Settle(units, DateTime(y, m, d, 0, 0, 0), fuel) == Some(DateTime(NextMonth(y, m).0, NextMonth(y, m).1, w', 0, 0, 0))
    decreases DaysIn(y, m) - d
  {
    DayStep(units, y, m, w, d, fuel);
    if d == DaysIn(y, m) {
      Walk(units, NextMonth(y, m).0, NextMonth(y, m).1, w', 1, fuel - 1);
    } else {
      WalkOut(units, y, m, w, d + 1, w', fuel - 1);
    }
  }

  /** Just after midnight on the last Friday, the seconds unit rolls the minute over. */
  lemma SecondRoll(t: DateTime)
    requires Valid(t) && t.day == LastFriday(t.year, t.month) && t.hour == 0 && t.minute == 0 && 0 < t.second
    ensures Runnable(LastFridays)
    ensures Sweep(LastFridays, 0, t) == (t.(minute := 1, second := 0), false)
  {
    OnFriday(t);
    Holds(LastFridays[3], t);
    Holds(LastFridays[4], t);
    Rolls(LastFridays[5], t);
    assert Roll(LastFridays[5], t) == SetMinutes(t, 1);
    SweepStep(LastFridays, 3, t);
    SweepStep(LastFridays, 4, t);
    SweepStep(LastFridays, 5, t);
  }

  /** At a later minute of hour 0 on the last Friday, the minutes unit rolls the hour over. */
  lemma MinuteRoll(t: DateTime)
    requires Valid(t) && t.day == LastFriday(t.year, t.month) && t.hour == 0 && 0 < t.minute && t.second == 0
    ensures Runnable(LastFridays)
    ensures Sweep(LastFridays, 0, t) == (t.(hour := 1, minute := 0), false)
  {
    OnFriday(t);
    Holds(LastFridays[3], t);
    Rolls(LastFridays[4], t);
    assert Roll(LastFridays[4], t) == SetHours(t, 1);
    SweepStep(LastFridays, 3, t);
    SweepStep(LastFridays, 4, t);
  }

  /** At a later hour on the last Friday, the hours unit rolls the day over. */
  lemma HourRoll(t: DateTime)
    requires Valid(t) && t.day == LastFriday(t.year, t.month) && 0 < t.hour
    ensures Runnable(LastFridays)
    ensures Sweep(LastFridays, 0, t) == (Tomorrow(t.year, t.month, t.day), false)
  {
    OnFriday(t);
    Rolls(LastFridays[3], t);
    NextMidnight(LastFridays[3], t);
    SweepStep(LastFridays, 3, t);
  }

  /** A first pass that moves on to the next midnight before day w, then the walk to day w. */
  lemma Approach(units: seq<TimeUnit>, y: int, m: int, w: int, a: DateTime, fuel: nat)
    requires 1 <= m <= 12 && Runnable(units) && Daily(units, y, m, w)
    requires Valid(a) && a.year == y && a.month == m && a.day < w && fuel >= w - a.day
    requires Sweep(units, 0, a) == (Tomorrow(y, m, a.day), false)
    ensures Settle(units, a, fuel) == Some(DateTime(y, m, w, 0, 0, 0))
  {
    var n := DateTime(y, m, a.day + 1, 0, 0, 0);
    assert Tomorrow(y, m, a.day) == n;
    var rest := fuel - 1;
    SettleRolls(units, a, fuel, n);
    Walk(units, y, m, w, a.day + 1, rest);
  }

  /** From midnight of a day before the month's last Friday, the next activation is that Friday's midnight. */
  lemma FirstFriday(t: DateTime, fuel: nat)
    requires Valid(t) && t.hour == 0 && t.minute == 0 && t.second == 0
    requires t.day < LastFriday(t.year, t.month) && fuel >= LastFriday(t.year, t.month) - t.day
    ensures Runnable(LastFridays)
    ensures Settle(LastFridays, AddSeconds(t, 1), fuel) == Some(DateTime(t.year, t.month, LastFriday(t.year, t.month), 0, 0, 0))
  {
    NextSecond(t);
    var a := t.(second := 1);
    DayRoll(a);
    FridaysDaily(t.year, t.month);
    Approach(LastFridays, t.year, t.month, LastFriday(t.year, t.month), a, fuel);
  }

  /** Three passes that roll the second, the minute and the hour over, one after the other. */
  lemma ClockRolls(units: seq<TimeUnit>, t: DateTime, fuel: nat)
    requires Valid(t) && t.hour == 0 && t.minute == 0 && t.second == 0 && Runnable(units) && fuel >= 3
    requires Sweep(units, 0, t.(second := 1)) == (t.(minute := 1), false)
    requires Sweep(units, 0, t.(minute := 1)) == (t.(hour := 1), false)
    requires Sweep(units, 0, t.(hour := 1)) == (Tomorrow(t.year, t.month, t.day), false)
    ensures Settle(units, AddSeconds(t, 1), fuel) == Settle(units, Tomorrow(t.year, t.month, t.day), fuel - 3)
  {
    NextSecond(t);
    SettleRolls(units, t.(second := 1), fuel, t.(minute := 1));
    SettleRolls(units, t.(minute := 1), fuel - 1, t.(hour := 1));
    SettleRolls(units, t.(hour := 1), fuel - 2, Tomorrow(t.year, t.month, t.day));
  }

  /** From the midnight after day w, a daily schedule's search arrives at day w' of the next month. */
  lemma Depart(units: seq<TimeUnit>, y: int, m: int, w: int, w': int, fuel: nat)
    requires 1 <= m <= 12 && Runnable(units) && Daily(units, y, m, w)
    requires Daily(units, NextMonth(y, m).0, NextMonth(y, m).1, w')
    requires fuel >= DaysIn(y, m) - w - 1 + w'
    ensures Settle(units, Tomorrow(y, m, w), fuel) == Some(DateTime(NextMonth(y, m).0, NextMonth(y, m).1, w', 0, 0, 0))
  {
    if w < DaysIn(y, m) {
      WalkOut(units, y, m, w, w + 1, w', fuel);
    } else {
      Walk(units, NextMonth(y, m).0, NextMonth(y, m).1, w', 1, fuel);
    }
  }


  /** One second after midnight of the last Friday, three passes roll the clock over to the next midnight. */
  lemma FridayPasses(t: DateTime, fuel: nat)
    requires Valid(t) && t.hour == 0 && t.minute == 0 && t.second == 0 && t.day == LastFriday(t.year, t.month)
    ensures Runnable(LastFridays)
    ensures Settle(LastFridays, AddSeconds(t, 1), fuel + 3) == Settle(LastFridays, Tomorrow(t.year, t.month, t.day), fuel)
  {
    SecondRoll(t.(second := 1));
    MinuteRoll(t.(minute := 1));
    HourRoll(t.(hour := 1));
    ClockRolls(LastFridays, t, fuel + 3);
  }

  /**
   * From midnight of a month's last Friday, the next activation is midnight
   * of the last Friday of the next month, ny/nm: three passes roll the
   * second, minute and hour over, then one pass per day.
   */
  lemma NextFriday(t: DateTime, ny: int, nm: int, fuel: nat)
    requires Valid(t) && t.hour == 0 && t.minute == 0 && t.second == 0 && t.day == LastFriday(t.year, t.month)
    requires (ny, nm) == NextMonth(t.year, t.month)
    requires fuel >= DaysIn(t.year, t.month) - t.day - 1 + LastFriday(ny, nm)
    ensures Runnable(LastFridays)
    ensures Settle(LastFridays, AddSeconds(t, 1), fuel + 3) == Some(DateTime(ny, nm, LastFriday(ny, nm), 0, 0, 0))
  {
    FridayPasses(t, fuel);
    FridayDeparts(t, ny, nm, fuel);
  }

  /** From the midnight after a month's last Friday, the walk ends at the last Friday of the next month ny/nm. */
  lemma FridayDeparts(t: DateTime, ny: int, nm: int, fuel: nat)
    requires Valid(t) && t.day == LastFriday(t.year, t.month) && (ny, nm) == NextMonth(t.year, t.month)
    requires fuel >= DaysIn(t.year, t.month) - t.day - 1 + LastFriday(ny, nm)
    ensures Runnable(LastFridays)
    ensures Settle(LastFridays, Tomorrow(t.year, t.month, t.day), fuel) == Some(DateTime(ny, nm, LastFriday(ny, nm), 0, 0, 0))
  {
    FridaysDaily(t.year, t.month);
    FridaysDaily(ny, nm);
    Depart(LastFridays, t.year, t.month, t.day, LastFriday(ny, nm), fuel);
  }

  /** From 2023-06-04 00:00:00 the schedule fires first at midnight of Friday 2023-06-30. */
  lemma JuneLastFriday(t: DateTime)
    requires t == DateTime(2023, 6, 4, 0, 0, 0)
    ensures Runnable(LastFridays)
    ensures Settle(LastFridays, AddSeconds(t, 1), 26) == Some(DateTime(2023, 6, 30, 0, 0, 0))
  {
    assert LastFriday(2023, 6) == 30;
    FirstFriday(t, 26);
  }

  /** From 2023-06-30 00:00:00 the schedule fires next at midnight of Friday 2023-07-28. */
  lemma JulyLastFriday(t: DateTime)
    requires t == DateTime(2023, 6, 30, 0, 0, 0)
    ensures Runnable(LastFridays)
    ensures Settle(LastFridays, AddSeconds(t, 1), 30) == Some(DateTime(2023, 7, 28, 0, 0, 0))
  {
    assert LastFriday(2023, 6) == 30;
    assert LastFriday(2023, 7) == 28;
    NextFriday(t, 2023, 7, 27);
  }
}

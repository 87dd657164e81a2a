/**
 * The values one comma-separated token of a cron field stands for
 * (`timeSet` and its six implementations). Each set answers, for an instant
 * `t` and the current value `other` of its field: how `other` compares with
 * the set (`Compare`), which value the scan should jump to (`Value`),
 * whether the set fits a field's domain (`SubsetOf`) and how sets are
 * ordered for sorting (`Less`).
 */
module TimeSets {
  import opened Calendar

  /** `ordering`: Less = nothing at or above `other`, Equal = `other` matches, Greater = a candidate lies above. */
  datatype Ordering = OrderingLess | OrderingEqual | OrderingGreater

  datatype TimeSet =
    | NotSpecified                              // `?`
    | Unit(value: int)                          // a single value
    | Range(from: TimeSet, to: TimeSet)         // inclusive range between two sets
    | Interval(from: TimeSet, to: TimeSet, incr: int)  // a range walked with a step
    | NthLastDayOfMonth(nthLast: int)           // `L`, `L-n`: the last day minus nthLast
    | LastWeekDayOfMonth(weekday: int)          // `wL`: the last weekday w of the month

  /** The three converters a field is parsed with, and the single-value sets each yields. */
  datatype Converter = UnitConverter | LastDayConverter | WeekDayConverter

  predicate IsPoint(c: Converter, s: TimeSet) {
    || s.Unit?
    || (c == LastDayConverter && s.NthLastDayOfMonth?)
    || (c == WeekDayConverter && s.LastWeekDayOfMonth?)
  }

  /** The shapes a field parsed with converter c can hold. */
  predicate Shaped(c: Converter, s: TimeSet) {
    match s
    case NotSpecified => true
    case Range(f, to) => IsPoint(c, f) && IsPoint(c, to)
    case Interval(f, to, _) => IsPoint(c, f) && IsPoint(c, to)
    case _ => IsPoint(c, s)
  }

  /** Every step is non-zero: Go divides by the step and panics on zero. */
  predicate StepsNonZero(s: TimeSet) {
    match s
    case Range(f, to) => StepsNonZero(f) && StepsNonZero(to)
    case Interval(f, to, incr) => incr != 0 && StepsNonZero(f) && StepsNonZero(to)
    case _ => true
  }

  /** `unitExpr.Compare`. */
  function CompareInt(u: int, other: int): (o: Ordering)
    ensures o == OrderingLess <==> u < other
    ensures o == OrderingEqual <==> u == other
    ensures o == OrderingGreater <==> u > other
  {
    if u < other then OrderingLess
    else if u == other then OrderingEqual
    else OrderingGreater
  }

  function Compare(s: TimeSet, t: DateTime, other: int): Ordering
    requires Valid(t) && StepsNonZero(s)
    decreases s, 1
  {
    match s
    case NotSpecified => OrderingEqual
    case Unit(u) => CompareInt(u, other)
    case Range(from, to) =>
      if Compare(to, t, other) == OrderingLess then OrderingLess
      else if Compare(from, t, other) == OrderingGreater then OrderingGreater
      else OrderingEqual
    case Interval(_, to, _) =>
      var nearestAfter := Value(s, t, other);
      var isMaxGreaterOrEqual := Compare(to, t, nearestAfter) != OrderingLess;
      if nearestAfter > other && isMaxGreaterOrEqual then OrderingGreater
      else if other == nearestAfter && isMaxGreaterOrEqual then OrderingEqual
      else OrderingLess
    case NthLastDayOfMonth(_) => CompareInt(Value(s, t, other), other)
    case LastWeekDayOfMonth(_) => CompareInt(Value(s, t, other), t.day)
  }

  function Value(s: TimeSet, t: DateTime, other: int): int
    requires Valid(t) && StepsNonZero(s)
    decreases s, 0
  {
    match s
    case NotSpecified => other
    case Unit(u) => u
    case Range(from, _) => Value(from, t, other)
    case Interval(from, _, incr) =>
      var start := Value(from, t, other);
      if other < start then start
      else
        RoundUp(other, start, incr)
    case NthLastDayOfMonth(n) => LastDayOfMonth(t).day - n
    case LastWeekDayOfMonth(w) =>
      var last := LastDayOfMonth(t);
      var diff := Weekday(last) - w;
      var diff' := if diff < 0 then diff + 7 else diff;
      last.day - diff'
  }

  function SubsetOf(s: TimeSet, min: int, max: int): bool {
    match s
    case NotSpecified => true
    case Unit(u) => min <= u <= max
    case Range(from, to) => SubsetOf(from, min, max) && SubsetOf(to, min, max)
    case Interval(from, to, _) => SubsetOf(from, min, max) && SubsetOf(to, min, max)
    case NthLastDayOfMonth(n) => n + 1 >= min && max - n >= min
    case LastWeekDayOfMonth(_) => true
  }

  function Size(s: TimeSet): nat {
    match s
    case Range(from, to) => 1 + Size(from) + Size(to)
    case Interval(from, to, _) => 2 + Size(from) + Size(to)
    case _ => 1
  }

  /** The `Less` methods used to sort a field's sets; a range stands for its lower end. */
  function Less(a: TimeSet, b: TimeSet): bool
    decreases Size(a) + Size(b)
  {
    match a
    case Unit(u) => (
      match b
      case Unit(v) => u < v
      case Range(from, _) => Less(a, from)
      case Interval(from, to, _) => Less(a, Range(from, to))
      case _ => false)
    case Range(from, _) => (
      match b
      case Range(bFrom, _) => Less(from, bFrom)
      case Interval(bFrom, _, _) => Less(from, bFrom)
      case Unit(_) => Less(from, b)
      case _ => false)
    case Interval(from, to, _) => (
      match b
      case Interval(bFrom, _, _) => Less(Range(from, to), bFrom)
      case Range(bFrom, _) => Less(Range(from, to), bFrom)
      case Unit(_) => Less(Range(from, to), b)
      case _ => false)
    case _ => false
  }

  /** A set matches `other` when it compares Equal. */
  predicate Admits(s: TimeSet, t: DateTime, other: int)
    requires Valid(t) && StepsNonZero(s)
  {
    Compare(s, t, other) == OrderingEqual
  }

  /** w is reached from start by whole steps of incr. */
  predicate OnStep(w: int, start: int, incr: int)
    requires incr != 0
  {
    (w - start) % incr == 0
  }

  /** A point whose comparison speaks about `other` (not about the day of t). */
  predicate ComparesOther(p: TimeSet) {
    p.Unit? || p.NthLastDayOfMonth?
  }

  /** Largest and smallest value a point can take over all months. */
  function PointMax(p: TimeSet): int {
    match p
    case Unit(u) => u
    case NthLastDayOfMonth(n) => 31 - n
    case _ => 31
  }

  function PointMin(p: TimeSet): int {
    match p
    case Unit(u) => u
    case NthLastDayOfMonth(n) => 28 - n
    case _ => 22
  }

  /** Every range starts no later than it ends, whatever the month. */
  predicate Ordered(s: TimeSet) {
    s.Range? ==> PointMax(s.from) <= PointMin(s.to)
  }

  lemma {:induction false} MulSign(a: int, d: int)
    requires d > 0
    ensures a >= 1 ==> a * d >= d
    ensures a == 0 ==> a * d == 0
    ensures a <= -1 ==> a * d <= -d
    decreases if a < 0 then -a else a
  {
    if a > 1 {
      MulSign(a - 1, d);
      assert a * d == (a - 1) * d + d;
    } else if a < -1 {
      MulSign(a + 1, d);
      assert a * d == (a + 1) * d - d;
    }
  }

  lemma DivModUnique(x: int, d: int, q: int, r: int)
    requires d > 0 && x == q * d + r && 0 <= r < d
    ensures x / d == q && x % d == r
  {
    var q0, r0 := x / d, x % d;
    assert x == q0 * d + r0;
    assert (q - q0) * d == r0 - r;
    MulSign(q - q0, d);
  }

  /**
   * The arithmetic of `intervalExpr.Value` once `other` has reached the start:
   * round `other` up to the next whole step past `start`.
   */
  function RoundUp(other: int, start: int, incr: int): int
    requires incr != 0
  {
    var remainder := (other - start) % incr;
    if remainder > 0 then other + incr - remainder else other
  }

  lemma RoundUpLeast(other: int, start: int, incr: int)
    requires incr > 0 && other >= start
    ensures var r := RoundUp(other, start, incr);
      && r >= other && OnStep(r, start, incr) && r - other < incr
      && forall w :: OnStep(w, start, incr) && w >= other ==> r <= w
  {
    var r := RoundUp(other, start, incr);
    var q, rem := (other - start) / incr, (other - start) % incr;
    assert other - start == q * incr + rem;
    if rem > 0 {
      assert r - start == (q + 1) * incr + 0;
      DivModUnique(r - start, incr, q + 1, 0);
      forall w | OnStep(w, start, incr) && w >= other
        ensures r <= w
      {
        StepPast(w, start, incr, q);
      }
    }
  }

  /** A point on a step that lies past step q lies at step q + 1 or later. */
  lemma StepPast(w: int, start: int, incr: int, q: int)
    requires incr > 0 && OnStep(w, start, incr) && w > start + q * incr
    ensures w >= start + (q + 1) * incr
  {
    var k := (w - start) / incr;
    assert w - start == k * incr;
    assert (k - q - 1) * incr == k * incr - (q + 1) * incr;
    assert (k - q) * incr == k * incr - q * incr;
    MulSign(k - q - 1, incr);
    MulSign(k - q, incr);
  }

  /** A rounded-up value that moved is already on a step, so rounding it again keeps it. */
  lemma RoundUpStays(other: int, start: int, incr: int)
    requires incr != 0 && other >= start && RoundUp(other, start, incr) > other
    ensures incr > 0
    ensures RoundUp(RoundUp(other, start, incr), start, incr) == RoundUp(other, start, incr)
  {
    RoundUpLeast(other, start, incr);
  }

  /**
   * `intervalExpr.Value` with a positive step: the least value that is at least
   * both `other` and the start, and lies a whole number of steps past the start.
   */
  lemma IntervalValueLeast(s: TimeSet, t: DateTime, other: int)
    requires Valid(t) && StepsNonZero(s) && s.Interval? && s.incr > 0
    ensures var r, start := Value(s, t, other), Value(s.from, t, other);
      && r >= other && r >= start && OnStep(r, start, s.incr)
      && forall w :: OnStep(w, start, s.incr) && w >= other && w >= start ==> r <= w
  {
    var start := Value(s.from, t, other);
    if other >= start {
      assert Value(s, t, other) == RoundUp(other, start, s.incr);
      RoundUpLeast(other, start, s.incr);
    } else {
      DivModUnique(0, s.incr, 0, 0);
    }
  }

  /**
   * `intervalExpr.Compare` with a positive step and a plain upper end: Equal
   * exactly on the stepped values between start and end, Greater when the next
   * stepped value above `other` is still within the end, Less otherwise.
   */
  lemma IntervalCompareSpec(s: TimeSet, t: DateTime, other: int)
    requires Valid(t) && StepsNonZero(s) && s.Interval? && s.incr > 0 && ComparesOther(s.to)
    ensures var start, end := Value(s.from, t, other), Value(s.to, t, other);
      && (Compare(s, t, other) == OrderingEqual <==>
            start <= other <= end && OnStep(other, start, s.incr))
      && (Compare(s, t, other) == OrderingGreater <==>
            other < Value(s, t, other) <= end)
  {
    IntervalValueLeast(s, t, other);
  }

  /** `rangeExpr.Compare` between plain ends: Less above the end, Greater below the start, Equal within. */
  lemma RangeCompareSpec(s: TimeSet, t: DateTime, other: int)
    requires Valid(t) && s.Range? && ComparesOther(s.from) && ComparesOther(s.to)
    ensures var start, end := Value(s.from, t, other), Value(s.to, t, other);
      && (Compare(s, t, other) == OrderingLess <==> end < other)
      && (Compare(s, t, other) == OrderingGreater <==> other <= end && other < start)
      && (Compare(s, t, other) == OrderingEqual <==> start <= other <= end)
      && Value(s, t, other) == start
  {
  }

  /**
   * `NthLastDayOfMonth(k)`, the set the token `L-(k+1)` produces (and `L` for
   * k = 0), resolves to the month's last day minus k and then behaves as that
   * single value: `L-1` is the last day, `L-31` the 1st of a 31-day month.
   */
  lemma NthLastDaySpec(k: int, t: DateTime, other: int)
    requires Valid(t)
    ensures Value(NthLastDayOfMonth(k), t, other) == DaysIn(t.year, t.month) - k
    ensures Admits(NthLastDayOfMonth(k), t, other) <==> other == DaysIn(t.year, t.month) - k
  {
  }

  /**
   * `wL` for a weekday w in 0..6 resolves to the day among the month's last
   * seven whose weekday is w; it matches when t itself is on that day.
   */
  lemma LastWeekDaySpec(w: int, t: DateTime, other: int)
    requires Valid(t) && 0 <= w <= 6
    ensures var d := Value(LastWeekDayOfMonth(w), t, other);
      && DaysIn(t.year, t.month) - 7 < d <= DaysIn(t.year, t.month)
      && Weekday(DateTime(t.year, t.month, d, 0, 0, 0)) == w
      && (Admits(LastWeekDayOfMonth(w), t, other) <==> t.day == d)
  {
    var n := DaysIn(t.year, t.month);
    var last := LastDayOfMonth(t);
    var wd := Weekday(last);
    var diff := if wd - w < 0 then wd - w + 7 else wd - w;
    assert Value(LastWeekDayOfMonth(w), t, other) == n - diff;
    WeekdayBack(t.year, t.month, n, diff);
    assert last == DateTime(t.year, t.month, n, 0, 0, 0);
    WeekModulo(w);
    if wd - w < 0 {
      assert wd - diff == w - 7;
    } else {
      assert wd - diff == w;
    }
  }

  /** A weekday, and a weekday one week back, reduce modulo 7 to the weekday itself. */
  lemma WeekModulo(w: int)
    requires 0 <= w < 7
    ensures w % 7 == w && (w - 7) % 7 == w
  {
  }

  /** Stepping k days back within a month steps the weekday k back, modulo 7. */
  lemma WeekdayBack(y: int, m: int, d: int, k: int)
    requires 1 <= m <= 12
    ensures Weekday(DateTime(y, m, d - k, 0, 0, 0)) == (Weekday(DateTime(y, m, d, 0, 0, 0)) - k) % 7
  {
    var n := DayNumber(y, m, d);
    assert DayNumber(y, m, d - k) == n - k;
    ShiftModulo(n + 1, k);
  }

  /** Going back k days from x lands on the weekday k before x's. */
  lemma ShiftModulo(x: int, k: int)
    ensures (x - k) % 7 == (x % 7 - k) % 7
  {
    var q := x / 7;
    assert x - k == (x % 7 - k) + 7 * q;
    DropMultiple(x % 7 - k, q);
  }

  /** Adding whole weeks leaves the remainder as it is. */
  lemma DropMultiple(a: int, q: int)
    ensures (a + 7 * q) % 7 == a % 7
  {
    var r := a % 7;
    assert a + 7 * q == 7 * (a / 7 + q) + r;
    DivModUnique(a + 7 * q, 7, a / 7 + q, r);
  }

  /** A Greater verdict always points above `other` (for every field but weekdays). */
  lemma GreaterAdvances(c: Converter, s: TimeSet, t: DateTime, other: int)
    requires Valid(t) && StepsNonZero(s) && Shaped(c, s) && c != WeekDayConverter
    requires Compare(s, t, other) == OrderingGreater
    ensures Value(s, t, other) > other
  {
  }

  /** ... and never beyond the field's maximum when the set lies in the field's domain. */
  lemma GreaterBounded(c: Converter, s: TimeSet, t: DateTime, other: int, min: int, max: int)
    requires Valid(t) && StepsNonZero(s) && Shaped(c, s) && c != WeekDayConverter
    requires SubsetOf(s, min, max) && (c == LastDayConverter ==> 1 <= min && 31 <= max)
    requires Compare(s, t, other) == OrderingGreater
    ensures Value(s, t, other) <= max
  {
  }

  /** The value a Greater verdict points at is itself matched by the set. */
  lemma GreaterAdmitted(c: Converter, s: TimeSet, t: DateTime, other: int)
    requires Valid(t) && StepsNonZero(s) && Shaped(c, s) && c != WeekDayConverter && Ordered(s)
    requires Compare(s, t, other) == OrderingGreater
    ensures Admits(s, t, Value(s, t, other))
  {
    var w := Value(s, t, other);
    match s
    case Range(f, to) =>
      assert Value(f, t, w) == w && Value(to, t, w) == Value(to, t, other);
      DayBounds(t);
    case Interval(f, to, incr) =>
      var start := Value(f, t, other);
      assert Value(f, t, w) == start;
      if other >= start {
        RoundUpStays(other, start, incr);
      }
      assert Value(s, t, w) == w;
    case _ =>
  }

  lemma DayBounds(t: DateTime)
    requires Valid(t)
    ensures 28 <= LastDayOfMonth(t).day <= 31
  {
  }

  /** With a positive step, Less means no value at or above `other` is matched. */
  lemma LessExcludesAbove(c: Converter, s: TimeSet, t: DateTime, other: int, w: int)
    requires Valid(t) && StepsNonZero(s) && Shaped(c, s) && c != WeekDayConverter
    requires s.Interval? ==> s.incr > 0
    requires Compare(s, t, other) == OrderingLess && other <= w
    ensures !Admits(s, t, w)
  {
    match s
    case Range(f, to) =>
      assert Value(to, t, w) == Value(to, t, other);
    case Interval(f, to, incr) =>
      IntervalValueLeast(s, t, other);
      IntervalValueLeast(s, t, w);
      assert Value(f, t, w) == Value(f, t, other);
      assert Value(to, t, w) == Value(to, t, other);
    case _ =>
  }

  /** With a positive step, a Greater verdict points at the least matched value above `other`. */
  lemma GreaterIsLeast(c: Converter, s: TimeSet, t: DateTime, other: int, w: int)
    requires Valid(t) && StepsNonZero(s) && Shaped(c, s) && c != WeekDayConverter
    requires s.Interval? ==> s.incr > 0
    requires Compare(s, t, other) == OrderingGreater && other < w && Admits(s, t, w)
    ensures Value(s, t, other) <= w
  {
    match s
    case Range(f, to) =>
      assert Value(f, t, w) == Value(f, t, other);
    case Interval(f, to, incr) =>
      IntervalValueLeast(s, t, other);
      IntervalValueLeast(s, t, w);
      assert Value(f, t, w) == Value(f, t, other);
    case _ =>
  }

  /** For hours, minutes, seconds and months, SubsetOf bounds every matched value. */
  lemma SubsetOfSound(s: TimeSet, t: DateTime, min: int, max: int, w: int)
    requires Valid(t) && StepsNonZero(s) && Shaped(UnitConverter, s) && s != NotSpecified
    requires SubsetOf(s, min, max) && Admits(s, t, w)
    ensures min <= w <= max
  {
    match s
    case Interval(f, to, incr) =>
      var start := Value(f, t, w);
      assert start == f.value && Value(to, t, w) == to.value;
      assert w >= start;
    case Range(f, to) =>
      assert Value(f, t, w) == f.value && Value(to, t, w) == to.value;
    case _ =>
  }

  /** Sets with a plain lower end: Unit, or a Range or Interval starting at a Unit. */
  predicate Keyed(s: TimeSet) {
    || s.Unit?
    || (s.Range? && s.from.Unit?)
    || (s.Interval? && s.from.Unit?)
  }

  function Key(s: TimeSet): int
    requires Keyed(s)
  {
    if s.Unit? then s.value else s.from.value
  }

  /** Between keyed sets, `Less` is the order of their lower ends. */
  lemma LessByKey(a: TimeSet, b: TimeSet)
    requires Keyed(a) && Keyed(b)
    ensures Less(a, b) <==> Key(a) < Key(b)
  {
    var ka := Unit(Key(a));
    var kb := Unit(Key(b));
    assert Less(ka, kb) <==> Key(a) < Key(b);
    if a.Unit? {
      if b.Interval? {
        assert Less(a, b) == Less(a, Range(b.from, b.to)) == Less(a, kb);
      }
    } else if a.Range? {
      assert Less(a, b) == Less(ka, kb);
    } else {
      assert Less(Range(a.from, a.to), kb) == Less(ka, kb);
      assert Less(a, b) == Less(ka, kb);
    }
  }

  /** Sets `Less` can never put first: `?`, `L`/`L-n` and `wL` are less than nothing. */
  lemma UnkeyedNeverLess(a: TimeSet, b: TimeSet)
    requires a.NotSpecified? || a.NthLastDayOfMonth? || a.LastWeekDayOfMonth?
    ensures !Less(a, b)
  {
  }

  /** Sets ordered by their lower ends, as sorting leaves them when every set is keyed. */
  predicate SortedByKey(sets: seq<TimeSet>) {
    && (forall i :: 0 <= i < |sets| ==> Keyed(sets[i]))
    && (forall i, j :: 0 <= i < j < |sets| ==> Key(sets[i]) <= Key(sets[j]))
  }

  /** A unit or a range from a unit matches nothing below its lower end. */
  lemma AdmitsAboveKey(s: TimeSet, t: DateTime, w: int)
    requires Valid(t) && StepsNonZero(s) && Keyed(s) && !s.Interval? && Admits(s, t, w)
    ensures Key(s) <= w
  {
  }

  /**
   * What a set says depends on t only through its month (and, for `wL`, its
   * day); sets of plain values do not depend on t at all.
   */
  lemma SameMonthCompare(c: Converter, s: TimeSet, a: DateTime, b: DateTime, v: int)
    requires Valid(a) && Valid(b) && StepsNonZero(s) && Shaped(c, s)
    requires c != UnitConverter ==> a.year == b.year && a.month == b.month
    requires c == WeekDayConverter ==> a.day == b.day
    ensures Compare(s, a, v) == Compare(s, b, v) && Value(s, a, v) == Value(s, b, v)
  {
    match s
    case Range(f, to) =>
      SamePoint(c, f, a, b, v);
      SamePoint(c, to, a, b, v);
    case Interval(f, to, incr) =>
      SamePoint(c, f, a, b, v);
      var n := Value(s, a, v);
      SamePoint(c, to, a, b, n);
    case NotSpecified =>
    case _ =>
      SamePoint(c, s, a, b, v);
  }

  /** A point of a field reads the same in two instants that agree on the month (and day, for weekdays). */
  lemma SamePoint(c: Converter, p: TimeSet, a: DateTime, b: DateTime, v: int)
    requires Valid(a) && Valid(b) && IsPoint(c, p)
    requires c != UnitConverter ==> a.year == b.year && a.month == b.month
    requires c == WeekDayConverter ==> a.day == b.day
    ensures Compare(p, a, v) == Compare(p, b, v) && Value(p, a, v) == Value(p, b, v)
  {
  }
}

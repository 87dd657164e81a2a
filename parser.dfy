/**
 * The cron-expression parser (`cronParser`): six space-separated fields,
 * each a `*`, a `?` or a comma-separated list of tokens; each token an
 * interval (`a/n`, `a-b/n`, `* /n`), a range (`a-b`) or a single value,
 * read by the field's converter and checked against the field's domain.
 * The sets of every field are then sorted and assembled into a schedule.
 */
module Parser {
  import opened Wrappers
  import opened Results
  import opened Text
  import opened Errors
  import opened TimeSets
  import opened TimeUnits

  /** `weekdays`: the lower-case three-letter names, Sunday = 0. */
  const WeekdayNames: map<string, int> :=
    map["sun" := 0, "mon" := 1, "tue" := 2, "wed" := 3, "thu" := 4, "fri" := 5, "sat" := 6]

  /** `convertUnit`: the integer the token spells, or Atoi's syntax error. */
  function ConvertUnit(value: string): (r: Result<TimeSet, Error>)
    ensures r.Ok? ==> r.value.Unit?
    ensures r.Err? ==> r.error.NumError?
  {
    match Atoi(value)
    case Some(n) => Ok(Unit(n))
    case None => Err(NumError(value))
  }

  /**
   * `convertWeekDay`: `L` is Saturday; `wL` the last weekday w of the month;
   * a weekday name in any letter case; otherwise an integer.
   */
  function ConvertWeekDay(value: string): (r: Result<TimeSet, Error>)
    ensures r.Ok? ==> IsPoint(WeekDayConverter, r.value)
    ensures r.Err? ==> r.error.NumError?
  {
    if value == "L" then Ok(Unit(6))
    else if HasSuffix(value, "L") then
      var w := TrimSuffix(value, "L");
      match Atoi(w)
      case Some(n) => Ok(LastWeekDayOfMonth(n))
      case None => Err(NumError(w))
    else if ToLower(value) in WeekdayNames then Ok(Unit(WeekdayNames[ToLower(value)]))
    else ConvertUnit(value)
  }

  /** `convertWithLastDayOfMonth`: `L` is the last day, `L-n` the n-th last (stored as n-1). */
  function ConvertWithLastDayOfMonth(value: string): (r: Result<TimeSet, Error>)
    ensures r.Ok? ==> IsPoint(LastDayConverter, r.value)
    ensures r.Err? ==> r.error.NumError?
  {
    if value == "L" then Ok(NthLastDayOfMonth(0))
    else if HasPrefix(value, "L-") then
      var n := TrimPrefix(value, "L-");
      match Atoi(n)
      case Some(nth) => Ok(NthLastDayOfMonth(nth - 1))
      case None => Err(NumError(n))
    else ConvertUnit(value)
  }

  /** The `converterFn` of a field. */
  function Convert(c: Converter, value: string): (r: Result<TimeSet, Error>)
    ensures r.Ok? ==> IsPoint(c, r.value)
    ensures r.Err? ==> r.error.NumError?
  {
    match c
    case UnitConverter => ConvertUnit(value)
    case LastDayConverter => ConvertWithLastDayOfMonth(value)
    case WeekDayConverter => ConvertWeekDay(value)
  }

  /** `parseRange`: exactly two pieces around `-`, each read by the converter. */
  function ParseRange(expr: string, c: Converter): (r: Result<TimeSet, Error>)
    ensures r.Ok? ==> r.value.Range? && Shaped(c, r.value)
    ensures r.Err? ==> r.error == ErrMalformedField || r.error.NumError?
  {
    var parts := Split(expr, '-');
    if |parts| != 2 then Err(ErrMalformedField)
    else
      match Convert(c, parts[0])
      case Err(e) => Err(e)
      case Ok(from) =>
        match Convert(c, parts[1])
        case Err(e) => Err(e)
        case Ok(to) => Ok(Range(from, to))
  }

  /**
   * `parseInterval`: a start and a step around `/`; the start `*` runs over
   * the whole domain, a range keeps its end, a single value runs to the maximum.
   */
  function ParseInterval(expr: string, c: Converter, min: int, max: int): (r: Result<TimeSet, Error>)
    ensures r.Ok? ==> r.value.Interval? && Shaped(c, r.value)
    ensures r.Err? ==> r.error == ErrMalformedField || r.error.NumError?
  {
    var parts := Split(expr, '/');
    if |parts| != 2 then Err(ErrMalformedField)
    else
      match Atoi(parts[1])
      case None => Err(NumError(parts[1]))
      case Some(incr) =>
        if parts[0] == "*" then Ok(Interval(Unit(min), Unit(max), incr))
        else if Contains(parts[0], "-") then
          match ParseRange(parts[0], c)
          case Err(e) => Err(e)
          case Ok(rge) => Ok(Interval(rge.from, rge.to, incr))
        else
          match Convert(c, parts[0])
          case Err(e) => Err(e)
          case Ok(from) => Ok(Interval(from, Unit(max), incr))
  }

  /** The `switch` of `parse`: an interval, a range (not `L-n`), or a single value. */
  function ConvertToken(u: string, c: Converter, min: int, max: int): (r: Result<TimeSet, Error>)
    ensures r.Ok? ==> Shaped(c, r.value) && !r.value.NotSpecified?
    ensures r.Err? ==> r.error == ErrMalformedField || r.error.NumError?
  {
    if Contains(u, "/") then ParseInterval(u, c, min, max)
    else if Contains(u, "-") && !Contains(u, "L-") then ParseRange(u, c)
    else Convert(c, u)
  }

  /** One token of `parse`: converted, then refused unless it lies in [min, max]. */
  function ParseToken(u: string, c: Converter, min: int, max: int): (r: Result<TimeSet, Error>)
    ensures r.Ok? ==> Shaped(c, r.value) && SubsetOf(r.value, min, max) && !r.value.NotSpecified?
    ensures r.Err? ==> r.error == ErrMalformedField || r.error == ErrValueOutsideRange || r.error.NumError?
  {
    match ConvertToken(u, c, min, max)
    case Err(e) => Err(e)
    case Ok(s) => if SubsetOf(s, min, max) then Ok(s) else Err(ErrValueOutsideRange)
  }

  /** Each token of a list parsed on its own. */
  function TokenResults(tokens: seq<string>, c: Converter, min: int, max: int): (rs: seq<Result<TimeSet, Error>>)
    ensures |rs| == |tokens|
  {
    seq(|tokens|, i requires 0 <= i < |tokens| => ParseToken(tokens[i], c, min, max))
  }

  /**
   * `parse` for one field: `*` is the empty list, `?` the single not-specified
   * set, anything else the comma-separated tokens, parsed in order up to the
   * first that fails.
   */
  function FieldSets(expr: string, c: Converter, min: int, max: int): Result<seq<TimeSet>, Error> {
    if expr == "*" then Ok([])
    else if expr == "?" then Ok([NotSpecified])
    else Collect(TokenResults(Split(expr, ','), c, min, max))
  }

  /**
   * A list of tokens succeeds exactly when every token does, with one set per
   * token in order; otherwise it fails with the error of the first token
   * that fails.
   */
  lemma TokensSpec(tokens: seq<string>, c: Converter, min: int, max: int)
    ensures var r := Collect(TokenResults(tokens, c, min, max));
      && (r.Ok? <==> forall i :: 0 <= i < |tokens| ==> ParseToken(tokens[i], c, min, max).Ok?)
      && (r.Ok? ==> |r.value| == |tokens| &&
                    forall i :: 0 <= i < |tokens| ==> ParseToken(tokens[i], c, min, max) == Ok(r.value[i]))
      && (r.Err? ==> exists i :: 0 <= i < |tokens| && ParseToken(tokens[i], c, min, max) == Err(r.error) &&
                                 (forall j :: 0 <= j < i ==> ParseToken(tokens[j], c, min, max).Ok?))
  {
    var rs := TokenResults(tokens, c, min, max);
    CollectOk(rs);
    CollectErr(rs);
    assert forall i :: 0 <= i < |tokens| ==> rs[i] == ParseToken(tokens[i], c, min, max);
    var r := Collect(rs);
    if r.Err? {
      var i :| 0 <= i < |rs| && rs[i] == Err(r.error) && forall j :: 0 <= j < i ==> rs[j].Ok?;
      assert ParseToken(tokens[i], c, min, max) == Err(r.error);
    }
  }

  /**
   * Every set a field yields has the converter's shapes and lies in the
   * domain, and `?` appears among them exactly when the field is `?`.
   */
  lemma FieldSetsSound(expr: string, c: Converter, min: int, max: int)
    ensures var r := FieldSets(expr, c, min, max);
      && (r.Ok? ==> forall i :: 0 <= i < |r.value| ==> Shaped(c, r.value[i]) && SubsetOf(r.value[i], min, max))
      && (r.Ok? ==> (HasNotSpecified(r.value) <==> expr == "?"))
  {
    var r := FieldSets(expr, c, min, max);
    if expr == "?" {
      assert r.value[0].NotSpecified?;
    } else if expr != "*" {
      TokensSpec(Split(expr, ','), c, min, max);
    }
  }

  /** `parse`, as the loop that appends each token's set and stops at the first error. */
  method ParseField(expr: string, c: Converter, min: int, max: int) returns (r: Result<seq<TimeSet>, Error>)
    ensures r == FieldSets(expr, c, min, max)
  {
    if expr == "*" {
      return Ok([]);
    }
    if expr == "?" {
      return Ok([NotSpecified]);
    }
    r := ParseList(Split(expr, ','), c, min, max);
  }

  /** `parse`'s loop over the comma-separated tokens, stopping at the first error. */
  method ParseList(tokens: seq<string>, c: Converter, min: int, max: int) returns (r: Result<seq<TimeSet>, Error>)
    ensures r == Collect(TokenResults(tokens, c, min, max))
  {
    ghost var rs := TokenResults(tokens, c, min, max);
    var fields: seq<TimeSet> := [];
    var i := 0;
    assert rs[i..] == rs;
    PrefixedEmpty(Collect(rs));
    while i < |tokens|
      invariant 0 <= i <= |tokens|
      invariant Collect(rs) == Prefixed(fields, Collect(rs[i..]))
    {
      CollectStep(rs, i);
      var field := ParseToken(tokens[i], c, min, max);
      assert rs[i] == field;
      if field.Err? {
        return Err(field.error);
      }
      PrefixedAppend(fields, [field.value], Collect(rs[i + 1..]));
      fields := fields + [field.value];
      i := i + 1;
    }
    assert rs[i..] == [];
    assert fields + [] == fields;
    return Ok(fields);
  }

  /** `isNotSpecified`: whether any set of the field is `?`. */
  method IsNotSpecified(fields: seq<TimeSet>) returns (b: bool)
    ensures b <==> exists i :: 0 <= i < |fields| && fields[i].NotSpecified?
  {
    for i := 0 to |fields|
      invariant forall j :: 0 <= j < i ==> !fields[j].NotSpecified?
    {
      if fields[i].NotSpecified? {
        return true;
      }
    }
    return false;
  }

  /** Every set has a plain lower end. */
  predicate AllKeyed(sets: seq<TimeSet>) {
    forall i :: 0 <= i < |sets| ==> Keyed(sets[i])
  }

  /** `sortableUnit.Swap`. */
  method Swap(a: array<TimeSet>, i: int, j: int)
    requires 0 <= i < a.Length && 0 <= j < a.Length
    modifies a
    ensures a[..] == old(a[..])[i := old(a[j])][j := old(a[i])]
  {
    a[i], a[j] := a[j], a[i];
  }

  /** The first n sets have lower ends, in ascending order. */
  predicate SortedPrefix(s: seq<TimeSet>, n: int) {
    && AllKeyed(s)
    && forall k, l :: 0 <= k < l < n && l < |s| ==> Key(s[k]) <= Key(s[l])
  }

  /**
   * Midway through inserting s[i]: it sits at j, the other sets up to i are
   * in order, and every set between j and i lies strictly above it.
   */
  predicate Inserting(s: seq<TimeSet>, j: int, i: int) {
    && AllKeyed(s)
    && 0 <= j <= i < |s|
    && (forall k, l :: 0 <= k < l <= i && k != j && l != j ==> Key(s[k]) <= Key(s[l]))
    && (forall l :: j < l <= i ==> Key(s[j]) < Key(s[l]))
  }

  /** s with the sets at j - 1 and j exchanged. */
  function Swapped(s: seq<TimeSet>, j: int): seq<TimeSet>
    requires 0 < j < |s|
  {
    s[j := s[j - 1]][j - 1 := s[j]]
  }

  lemma SwapPermutes(s: seq<TimeSet>, j: int)
    requires 0 < j < |s|
    ensures multiset(Swapped(s, j)) == multiset(s)
    ensures AllKeyed(s) ==> AllKeyed(Swapped(s, j))
  {
    assert s == s[..j - 1] + [s[j - 1], s[j]] + s[j + 1..];
    assert Swapped(s, j) == s[..j - 1] + [s[j], s[j - 1]] + s[j + 1..];
  }

  lemma InsertStart(s: seq<TimeSet>, i: int)
    requires 0 <= i < |s| && SortedPrefix(s, i)
    ensures Inserting(s, i, i)
  {
  }

  lemma InsertStep(s: seq<TimeSet>, j: int, i: int)
    requires Inserting(s, j, i) && 0 < j && Key(s[j]) < Key(s[j - 1])
    ensures Inserting(Swapped(s, j), j - 1, i)
  {
    SwapPermutes(s, j);
  }

  lemma InsertDone(s: seq<TimeSet>, j: int, i: int)
    requires Inserting(s, j, i) && (j == 0 || Key(s[j - 1]) <= Key(s[j]))
    ensures SortedPrefix(s, i + 1)
  {
  }

  /** One step of the inner loop: the set being inserted exchanged with the one below it. */
  method SwapDown(a: array<TimeSet>, j: int, i: int, ghost keyed: bool)
    requires 0 < j <= i < a.Length && Less(a[j], a[j - 1])
    requires keyed ==> Inserting(a[..], j, i)
    modifies a
    ensures a[..] == Swapped(old(a[..]), j)
    ensures multiset(a[..]) == multiset(old(a[..]))
    ensures keyed ==> Inserting(a[..], j - 1, i)
  {
    ghost var s := a[..];
    SwapPermutes(s, j);
    if keyed {
      LessByKey(a[j], a[j - 1]);
      InsertStep(s, j, i);
    }
    Swap(a, j, j - 1);
  }

  /** The inner loop of the insertion sort: a[i] swapped down past every set it is `Less` than. */
  method SinkDown(a: array<TimeSet>, i: int, ghost keyed: bool)
    requires 0 <= i < a.Length
    requires keyed ==> SortedPrefix(a[..], i)
    modifies a
    ensures multiset(a[..]) == multiset(old(a[..]))
    ensures keyed ==> SortedPrefix(a[..], i + 1)
  {
    var j := i;
    if keyed {
      InsertStart(a[..], i);
    }
    while j > 0 && Less(a[j], a[j - 1])
      invariant 0 <= j <= i
      invariant multiset(a[..]) == multiset(old(a[..]))
      invariant keyed ==> Inserting(a[..], j, i)
      decreases j
    {
      SwapDown(a, j, i, keyed);
      j := j - 1;
    }
    if keyed {
      if j > 0 {
        LessByKey(a[j], a[j - 1]);
      }
      InsertDone(a[..], j, i);
    }
  }

  /**
   * `sort.Sort(sortableUnit(...))` as the insertion sort Go's sort package
   * runs on short slices: a permutation, ordered by lower end whenever every
   * set has one.
   */
  method SortUnit(a: array<TimeSet>)
    modifies a
    ensures multiset(a[..]) == multiset(old(a[..]))
    ensures AllKeyed(old(a[..])) ==> SortedByKey(a[..])
  {
    ghost var keyed := AllKeyed(a[..]);
    var i := 1;
    while i < a.Length
      invariant a.Length == 0 || 1 <= i <= a.Length
      invariant multiset(a[..]) == multiset(old(a[..]))
      invariant keyed ==> SortedPrefix(a[..], i)
    {
      SinkDown(a, i, keyed);
      i := i + 1;
    }
  }

  /** The sorted copy of a field's sets. */
  method SortSets(sets: seq<TimeSet>) returns (sorted: seq<TimeSet>)
    ensures SortedOf(sorted, sets)
  {
    var a := new TimeSet[|sets|](i requires 0 <= i < |sets| => sets[i]);
    assert a[..] == sets;
    SortUnit(a);
    sorted := a[..];
  }

  /** s holds the sets of orig, ordered by lower end whenever every set has one. */
  predicate SortedOf(s: seq<TimeSet>, orig: seq<TimeSet>) {
    && multiset(s) == multiset(orig)
    && (AllKeyed(orig) ==> SortedByKey(s))
  }

  /** A field of the expression: its position, converter, domain and error kind. */
  datatype FieldDesc = FieldDesc(position: nat, conv: Converter, min: int, max: int, kind: TimeUnitKind)

  /** The fields in the order `Parse` reads them: week days, months, days, hours, minutes, seconds. */
  const Fields: seq<FieldDesc> := [
    FieldDesc(5, WeekDayConverter, 0, 6, WeekDays),
    FieldDesc(4, UnitConverter, 1, 12, Months),
    FieldDesc(3, LastDayConverter, 1, 31, Days),
    FieldDesc(2, UnitConverter, 0, 23, Hours),
    FieldDesc(1, UnitConverter, 0, 59, Minutes),
    FieldDesc(0, UnitConverter, 0, 59, Errors.Seconds)]

  /** The k-th field read, of the six pieces of an expression. */
  function FieldResult(parts: seq<string>, k: nat): Result<seq<TimeSet>, Error>
    requires |parts| == 6 && k < 6
  {
    var d := Fields[k];
    FieldSets(parts[d.position], d.conv, d.min, d.max)
  }

  /** Field k's sets, or its error wrapped in a `TimeUnitError` of the field's kind. */
  function FieldOutcome(parts: seq<string>, k: nat): (r: Result<seq<TimeSet>, Error>)
    requires |parts| == 6 && k < 6
    ensures r.Err? ==> r.error.TimeUnitError?
  {
    match FieldResult(parts, k)
    case Err(e) => Err(NewTimeUnitErr(Fields[k].kind, e))
    case Ok(sets) => Ok(sets)
  }

  /** Each of the six fields read on its own. */
  function FieldOutcomes(parts: seq<string>): (rs: seq<Result<seq<TimeSet>, Error>>)
    requires |parts| == 6
    ensures |rs| == 6
  {
    seq(6, k requires 0 <= k < 6 => FieldOutcome(parts, k))
  }

  /** The six fields read in order, up to the first that fails. */
  function ReadFields(parts: seq<string>): Result<seq<seq<TimeSet>>, Error>
    requires |parts| == 6
  {
    Collect(FieldOutcomes(parts))
  }

  /**
   * The fields read are each field's own sets, or the first field that fails
   * is reported, wrapped with its kind.
   */
  lemma ReadFieldsSpec(parts: seq<string>)
    requires |parts| == 6
    ensures var r := ReadFields(parts);
      && (r.Ok? ==> |r.value| == 6 && forall k :: 0 <= k < 6 ==> FieldResult(parts, k) == Ok(r.value[k]))
      && (r.Err? ==> exists k :: 0 <= k < 6 && FieldResult(parts, k).Err? &&
                                 r.error == NewTimeUnitErr(Fields[k].kind, FieldResult(parts, k).error) &&
                                 (forall j :: 0 <= j < k ==> FieldResult(parts, j).Ok?))
  {
    var rs := FieldOutcomes(parts);
    CollectOk(rs);
    CollectErr(rs);
    var r := Collect(rs);
    if r.Err? {
      var k :| 0 <= k < 6 && rs[k] == Err(r.error) && forall j :: 0 <= j < k ==> rs[j].Ok?;
      assert rs[k] == FieldOutcome(parts, k);
      assert forall j :: 0 <= j < k ==> FieldResult(parts, j).Ok? by {
        forall j | 0 <= j < k
          ensures FieldResult(parts, j).Ok?
        {
          assert rs[j] == FieldOutcome(parts, j);
        }
      }
    } else {
      forall k | 0 <= k < 6
        ensures FieldResult(parts, k) == Ok(r.value[k])
      {
        assert rs[k] == FieldOutcome(parts, k);
      }
    }
  }

  /**
   * What `Parse` reads from an expression before sorting: the six fields'
   * sets in reading order, or the error it stops at.
   */
  function Reading(expression: string): Result<seq<seq<TimeSet>>, Error> {
    var parts := Split(expression, ' ');
    if |parts| != 6 then Err(ErrMalformedExpression) else ReadFields(parts)
  }

  predicate HasNotSpecified(sets: seq<TimeSet>) {
    exists i :: 0 <= i < |sets| && sets[i].NotSpecified?
  }

  /**
   * The outcome `Parse` gives: on a reading error the empty schedule and
   * that error; otherwise the six units in parse order, each a sorted copy
   * of its field's sets, with `ErrMultipleNotSpecified` exactly when both the
   * day and the weekday field hold `?`.
   */
  predicate ParsedFrom(expression: string, schedule: Schedule, err: Option<Error>) {
    match Reading(expression)
    case Err(e) => schedule == Schedule([]) && err == Some(e)
    case Ok(f) =>
      && Assembled(schedule.timeUnits, f)
      && err == (if HasNotSpecified(f[0]) && HasNotSpecified(f[2]) then Some(ErrMultipleNotSpecified) else None)
  }

  /** The units in parse order, each holding a sorted copy of its field's sets (read in reading order). */
  predicate Assembled(units: seq<TimeUnit>, f: seq<seq<TimeSet>>) {
    && |f| == 6
    && InParseOrder(units)
    && SortedOf(units[0].sets, f[1])
    && SortedOf(units[1].sets, f[2])
    && SortedOf(units[2].sets, f[0])
    && SortedOf(units[3].sets, f[3])
    && SortedOf(units[4].sets, f[4])
    && SortedOf(units[5].sets, f[5])
  }

  /** The six `parse` calls of `Parse`, in reading order, stopping at the first failure. */
  method ParseFields(matches: seq<string>) returns (r: Result<seq<seq<TimeSet>>, Error>)
    requires |matches| == 6
    ensures r == ReadFields(matches)
  {
    ghost var rs := FieldOutcomes(matches);
    var fields: seq<seq<TimeSet>> := [];
    var k := 0;
    assert rs[k..] == rs;
    PrefixedEmpty(Collect(rs));
    while k < 6
      invariant 0 <= k <= 6
      invariant Collect(rs) == Prefixed(fields, Collect(rs[k..]))
    {
      CollectStep(rs, k);
      var d := Fields[k];
      var sets := ParseField(matches[d.position], d.conv, d.min, d.max);
      if sets.Err? {
        return Err(NewTimeUnitErr(d.kind, sets.error));
      }
      PrefixedAppend(fields, [sets.value], Collect(rs[k + 1..]));
      fields := fields + [sets.value];
      k := k + 1;
    }
    assert rs[k..] == [];
    assert fields + [] == fields;
    return Ok(fields);
  }

  /**
   * `cronParser.Parse`: the fields read in the order week days, months,
   * days, hours, minutes, seconds, the first failure returned with the
   * empty schedule; then the double-`?` check, then every field sorted.
   */
  method Parse(expression: string) returns (schedule: Schedule, err: Option<Error>)
    ensures ParsedFrom(expression, schedule, err)
  {
    var matches := Split(expression, ' ');
    if |matches| != 6 {
      return Schedule([]), Some(ErrMalformedExpression);
    }
    var read := ParseFields(matches);
    if read.Err? {
      return Schedule([]), Some(read.error);
    }
    var fields := read.value;
    CollectOk(FieldOutcomes(matches));
    assert Reading(expression) == Ok(fields) && |fields| == 6;
    var weekdaysOmitted := IsNotSpecified(fields[0]);
    var daysOmitted := IsNotSpecified(fields[2]);
    err := if weekdaysOmitted && daysOmitted then Some(ErrMultipleNotSpecified) else None;
    var units := Assemble(fields);
    schedule := Schedule(units);
  }

  /** The six units in parse order, each holding its field's sets sorted. */
  method Assemble(fields: seq<seq<TimeSet>>) returns (units: seq<TimeUnit>)
    requires |fields| == 6
    ensures Assembled(units, fields)
  {
    var weekdays := SortSets(fields[0]);
    var months := SortSets(fields[1]);
    var days := SortSets(fields[2]);
    var hours := SortSets(fields[3]);
    var minutes := SortSets(fields[4]);
    var seconds := SortSets(fields[5]);
    units := [MonthUnit(months), DayUnit(days), WeekdayUnit(weekdays),
              HourUnit(hours), MinuteUnit(minutes), SecondUnit(seconds)];
    assert units[0].sets == months && units[1].sets == days && units[2].sets == weekdays;
    assert units[3].sets == hours && units[4].sets == minutes && units[5].sets == seconds;
  }

  /** Every set `Parse` accepts has its unit's shapes and lies in its unit's domain. */
  lemma ParseSound(expression: string, schedule: Schedule, err: Option<Error>)
    requires ParsedFrom(expression, schedule, err) && Reading(expression).Ok?
    ensures InParseOrder(schedule.timeUnits)
    ensures forall i :: 0 <= i < 6 ==> Parsed(schedule.timeUnits[i])
  {
    var parts := Split(expression, ' ');
    AssembledParsed(parts, Reading(expression).value, schedule.timeUnits);
  }

  /** The units assembled from six fields that were read successfully are parsed. */
  lemma AssembledParsed(parts: seq<string>, f: seq<seq<TimeSet>>, units: seq<TimeUnit>)
    requires |parts| == 6 && ReadFields(parts) == Ok(f) && Assembled(units, f)
    ensures forall i :: 0 <= i < 6 ==> Parsed(units[i])
  {
    ReadFieldsSpec(parts);
    forall i | 0 <= i < 6
      ensures Parsed(units[i])
    {
      var k := FieldOf(i);
      FieldOfUnit(units, f, i);
      FieldParsed(parts, k, f[k]);
      SortedParsed(units[i], f[k], Fields[k].conv, Fields[k].min, Fields[k].max);
    }
  }

  /** The field (in reading order) whose sets unit i (in parse order) holds. */
  function FieldOf(i: nat): (k: nat)
    requires i < 6
    ensures k < 6
  {
    if i == 0 then 1 else if i == 1 then 2 else if i == 2 then 0 else i
  }

  /** Unit i holds a sorted copy of field FieldOf(i), with that field's converter and domain. */
  lemma FieldOfUnit(units: seq<TimeUnit>, f: seq<seq<TimeSet>>, i: nat)
    requires i < 6 && Assembled(units, f)
    ensures var k := FieldOf(i);
      && SortedOf(units[i].sets, f[k])
      && Conv(units[i]) == Fields[k].conv && Min(units[i]) == Fields[k].min && Max(units[i]) == Fields[k].max
  {
  }

  /** The sets a field reads have its converter's shapes and lie in its domain. */
  lemma FieldParsed(parts: seq<string>, k: nat, sets: seq<TimeSet>)
    requires |parts| == 6 && k < 6 && FieldResult(parts, k) == Ok(sets)
    ensures forall j :: 0 <= j < |sets| ==> Shaped(Fields[k].conv, sets[j]) && SubsetOf(sets[j], Fields[k].min, Fields[k].max)
  {
    FieldSetsSound(parts[Fields[k].position], Fields[k].conv, Fields[k].min, Fields[k].max);
  }

  /** A unit holding a sorted copy of well-shaped, in-domain sets is parsed. */
  lemma SortedParsed(u: TimeUnit, orig: seq<TimeSet>, c: Converter, min: int, max: int)
    requires SortedOf(u.sets, orig) && Conv(u) == c && Min(u) == min && Max(u) == max
    requires forall j :: 0 <= j < |orig| ==> Shaped(c, orig[j]) && SubsetOf(orig[j], min, max)
    ensures Parsed(u)
  {
    forall j | 0 <= j < |u.sets|
      ensures Shaped(Conv(u), u.sets[j]) && SubsetOf(u.sets[j], Min(u), Max(u))
    {
      assert u.sets[j] in multiset(u.sets);
      assert u.sets[j] in multiset(orig);
      var l :| 0 <= l < |orig| && orig[l] == u.sets[j];
    }
  }

  /** An expression is refused as malformed exactly when it does not have six space-separated fields. */
  lemma ParseCountsFields(parts: seq<string>)
    requires |parts| >= 1 && forall i :: 0 <= i < |parts| ==> ' ' !in parts[i]
    ensures Reading(Join(parts, ' ')) == Err(ErrMalformedExpression) <==> |parts| != 6
  {
    SplitJoin(parts, ' ');
    MalformedIffCount(Join(parts, ' '));
  }

  /** Only a wrong number of fields is reported as a malformed expression. */
  lemma MalformedIffCount(expression: string)
    ensures Reading(expression) == Err(ErrMalformedExpression) <==> |Split(expression, ' ')| != 6
  {
    var parts := Split(expression, ' ');
    if |parts| == 6 {
      var rs := FieldOutcomes(parts);
      CollectErr(rs);
      if Collect(rs).Err? {
        var k :| 0 <= k < |rs| && rs[k] == Err(Collect(rs).error) && forall j :: 0 <= j < k ==> rs[j].Ok?;
        assert rs[k] == FieldOutcome(parts, k);
      }
    }
  }

  /**
   * `?` in both the day and the weekday field, and only that, makes an
   * otherwise readable expression fail with `ErrMultipleNotSpecified`.
   */
  lemma DoubleNotSpecified(expression: string, schedule: Schedule, err: Option<Error>)
    requires ParsedFrom(expression, schedule, err) && Reading(expression).Ok?
    ensures err == Some(ErrMultipleNotSpecified) <==>
      Split(expression, ' ')[3] == "?" && Split(expression, ' ')[5] == "?"
    ensures err.None? || err == Some(ErrMultipleNotSpecified)
  {
    var parts := Split(expression, ' ');
    var f := Reading(expression).value;
    ReadFieldsSpec(parts);
    assert FieldResult(parts, 0) == Ok(f[0]) && FieldResult(parts, 2) == Ok(f[2]);
    FieldSetsSound(parts[5], WeekDayConverter, 0, 6);
    FieldSetsSound(parts[3], LastDayConverter, 1, 31);
  }

  /** A token with neither `/` nor `-` is a single value. */
  lemma SingleValueToken(u: string, c: Converter, min: int, max: int)
    requires '/' !in u && '-' !in u
    ensures ConvertToken(u, c, min, max) == Convert(c, u)
  {
    NotContains(u, "/");
    NotContains(u, "-");
  }

  /** A non-negative number is the single value it spells, when in the domain. */
  lemma UnitToken(n: int, min: int, max: int)
    requires n >= 0
    ensures ParseToken(Itoa(n), UnitConverter, min, max) ==
      if min <= n <= max then Ok(Unit(n)) else Err(ErrValueOutsideRange)
  {
    ItoaChars(n);
    SingleValueToken(Itoa(n), UnitConverter, min, max);
    AtoiItoa(n);
  }

  /** `m-n` is the range between the two numbers, when both lie in the domain. */
  lemma RangeToken(m: int, n: int, min: int, max: int)
    requires m >= 0 && n >= 0
    ensures ParseToken(Itoa(m) + "-" + Itoa(n), UnitConverter, min, max) ==
      if min <= m <= max && min <= n <= max then Ok(Range(Unit(m), Unit(n))) else Err(ErrValueOutsideRange)
  {
    RangeConverts(m, n, min, max);
    assert SubsetOf(Range(Unit(m), Unit(n)), min, max) <==> min <= m <= max && min <= n <= max;
  }

  /** `m-n` converts to the range from m to n, in any domain. */
  lemma RangeConverts(m: int, n: int, min: int, max: int)
    requires m >= 0 && n >= 0
    ensures ConvertToken(Itoa(m) + "-" + Itoa(n), UnitConverter, min, max) == Ok(Range(Unit(m), Unit(n)))
  {
    var a, b := Itoa(m), Itoa(n);
    var u := a + "-" + b;
    ItoaChars(m);
    ItoaChars(n);
    assert '/' !in u;
    NotContains(u, "/");
    assert u[|a|..|a| + 1] == "-";
    ContainsAt(u, "-", |a|);
    assert 'L' !in u;
    NotContains(u, "L-");
    RangeParses(m, n);
  }

  /** `m-n` reads as the range from m to n. */
  lemma RangeParses(m: int, n: int)
    requires m >= 0 && n >= 0
    ensures ParseRange(Itoa(m) + "-" + Itoa(n), UnitConverter) == Ok(Range(Unit(m), Unit(n)))
  {
    ItoaChars(m);
    ItoaChars(n);
    RangeSplits(Itoa(m), Itoa(n));
    AtoiItoa(m);
    AtoiItoa(n);
  }

  /** Two dash-free strings joined by a dash split back into the two. */
  lemma RangeSplits(a: string, b: string)
    requires '-' !in a && '-' !in b
    ensures Split(a + "-" + b, '-') == [a, b]
  {
    assert [a, b][1..] == [b];
    assert Join([a, b], '-') == a + "-" + b;
    SplitJoin([a, b], '-');
  }

  /** `* /n` (without the space) steps by n through the whole domain. */
  lemma EveryStepToken(n: int, c: Converter, min: int, max: int)
    requires min <= max
    ensures ParseToken("*/" + Itoa(n), c, min, max) == Ok(Interval(Unit(min), Unit(max), n))
  {
    var b := Itoa(n);
    var u := "*/" + b;
    ItoaChars(n);
    assert u[1..2] == "/";
    ContainsAt(u, "/", 1);
    assert ["*", b][1..] == [b];
    assert Join(["*", b], '/') == u;
    SplitJoin(["*", b], '/');
    AtoiItoa(n);
    assert Split(u, '/') == ["*", b];
    assert ParseInterval(u, c, min, max) == Ok(Interval(Unit(min), Unit(max), n));
    assert ConvertToken(u, c, min, max) == Ok(Interval(Unit(min), Unit(max), n));
    assert SubsetOf(Unit(min), min, max) && SubsetOf(Unit(max), min, max);
  }

  /** `a/n` steps by n from a up to the domain's maximum. */
  lemma StepFromToken(m: int, n: int, min: int, max: int)
    requires m >= 0 && min <= max
    ensures ParseToken(Itoa(m) + "/" + Itoa(n), UnitConverter, min, max) ==
      if min <= m <= max then Ok(Interval(Unit(m), Unit(max), n)) else Err(ErrValueOutsideRange)
  {
    var a, b := Itoa(m), Itoa(n);
    var u := a + "/" + b;
    ItoaChars(m);
    ItoaChars(n);
    assert u[|a|..|a| + 1] == "/";
    ContainsAt(u, "/", |a|);
    assert [a, b][1..] == [b];
    assert Join([a, b], '/') == u;
    SplitJoin([a, b], '/');
    assert a != "*";
    NotContains(a, "-");
    AtoiItoa(m);
    AtoiItoa(n);
    assert Split(u, '/') == [a, b];
    assert ParseInterval(u, UnitConverter, min, max) == Ok(Interval(Unit(m), Unit(max), n));
    assert ConvertToken(u, UnitConverter, min, max) == Ok(Interval(Unit(m), Unit(max), n));
    assert SubsetOf(Unit(max), min, max);
    assert SubsetOf(Unit(m), min, max) <==> min <= m <= max;
  }

  /**
   * Day tokens: `L` is the month's last day and `L-n` its n-th last day
   * (stored as n - 1, so `L-1` is `L` again), accepted for 1 <= n <= 31 only.
   */
  lemma LastDayTokens(n: int)
    ensures ParseToken("L", LastDayConverter, 1, 31) == Ok(NthLastDayOfMonth(0))
    ensures ParseToken("L-" + Itoa(n), LastDayConverter, 1, 31) ==
      if 1 <= n <= 31 then Ok(NthLastDayOfMonth(n - 1)) else Err(ErrValueOutsideRange)
  {
    SingleValueToken("L", LastDayConverter, 1, 31);
    var b := Itoa(n);
    var u := "L-" + b;
    ItoaChars(n);
    assert '/' !in u;
    NotContains(u, "/");
    assert u[0..2] == "L-";
    ContainsAt(u, "L-", 0);
    assert HasPrefix(u, "L-") && u[2..] == b;
    AtoiItoa(n);
  }

  /** The shape of the weekday names: three lower-case letters, the last never `l`. */
  lemma WeekdayNameShape(name: string)
    requires name in WeekdayNames
    ensures |name| == 3 && name[2] != 'l' && 0 <= WeekdayNames[name] <= 6
    ensures forall i :: 0 <= i < 3 ==> 'a' <= name[i] <= 'z'
  {
  }

  /** Weekday tokens `L` and `wL`: Saturday, and the last weekday w of the month. */
  lemma WeekdayLastTokens(w: int)
    requires w >= 0
    ensures ParseToken("L", WeekDayConverter, 0, 6) == Ok(Unit(6))
    ensures ParseToken(Itoa(w) + "L", WeekDayConverter, 0, 6) == Ok(LastWeekDayOfMonth(w))
  {
    SingleValueToken("L", WeekDayConverter, 0, 6);
    var a := Itoa(w);
    ItoaChars(w);
    AtoiItoa(w);
    var u := a + "L";
    assert '/' !in u && '-' !in u;
    SingleValueToken(u, WeekDayConverter, 0, 6);
    assert HasSuffix(u, "L") && u[..|u| - 1] == a;
  }

  /** A numeric weekday token is that weekday, accepted in 0..6 only. */
  lemma WeekdayNumberToken(w: int)
    requires w >= 0
    ensures ParseToken(Itoa(w), WeekDayConverter, 0, 6) ==
      if w <= 6 then Ok(Unit(w)) else Err(ErrValueOutsideRange)
  {
    var a := Itoa(w);
    ItoaChars(w);
    AtoiItoa(w);
    SingleValueToken(a, WeekDayConverter, 0, 6);
    assert !HasSuffix(a, "L") by {
      assert IsDigit(a[|a| - 1]);
    }
    assert ToLower(a)[0] == a[0];
    assert ToLower(a) !in WeekdayNames;
  }

  /** A weekday name, in any letter case, is its weekday. */
  lemma WeekdayNameToken(v: string)
    requires ToLower(v) in WeekdayNames
    ensures ParseToken(v, WeekDayConverter, 0, 6) == Ok(Unit(WeekdayNames[ToLower(v)]))
  {
    WeekdayNameShape(ToLower(v));
    assert forall i :: 0 <= i < |v| ==> 'a' <= LowerChar(v[i]) <= 'z';
    assert '/' !in v && '-' !in v;
    SingleValueToken(v, WeekDayConverter, 0, 6);
    assert !HasSuffix(v, "L") by {
      assert LowerChar(v[2]) != 'l';
    }
  }
}

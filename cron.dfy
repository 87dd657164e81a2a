/**
 * The schedule evaluator: parsing a whole expression into a `Schedule`, and
 * finding the next activation by running every unit's `Next` in turn,
 * starting over from the first unit whenever one of them rolls over.
 */
module Cron {
  import opened Wrappers
  import opened Calendar
  import opened Errors
  import opened TimeUnits
  import Parser

  /** Every unit of the schedule can be evaluated (no set steps by zero). */
  predicate Runnable(units: seq<TimeUnit>) {
    forall i :: 0 <= i < |units| ==> Evaluable(units[i])
  }

  /** Every unit holds only sets the parser lets through: of the unit's shapes and within its domain. */
  predicate AllParsed(units: seq<TimeUnit>) {
    forall i :: 0 <= i < |units| ==> Parsed(units[i])
  }

  /** Every unit is parsed, evaluable and has its ranges the right way round. */
  predicate Sound(units: seq<TimeUnit>) {
    forall i :: 0 <= i < |units| ==> WellFormed(units[i])
  }

  /**
   * One pass of `nextAfter`'s loop from unit i on: the units' `Next` applied
   * in order, the pass cut short with `false` by the first unit that rolls over.
   */
  function Sweep(units: seq<TimeUnit>, i: nat, t: DateTime): (r: (DateTime, bool))
    requires i <= |units| && Valid(t) && Runnable(units)
    ensures Valid(r.0)
    decreases |units| - i, 1
  {
    if i == |units| then (t, true) else Step(units, i, t)
  }

  /** Unit i's `Next`, then the rest of the pass unless it failed. */
  function Step(units: seq<TimeUnit>, i: nat, t: DateTime): (r: (DateTime, bool))
    requires i < |units| && Valid(t) && Runnable(units)
    ensures Valid(r.0)
    decreases |units| - i, 0
  {
    var a := Advance(units[i], t);
    if !a.1 then a else Sweep(units, i + 1, a.0)
  }

  /**
   * `nextAfter`: passes repeated from where the last one stopped until one
   * goes through; at most `fuel` passes may be cut short, and None stands
   * for the search going on beyond them.
   */
  function Settle(units: seq<TimeUnit>, t: DateTime, fuel: nat): (r: Option<DateTime>)
    requires Valid(t) && Runnable(units)
    ensures r.Some? ==> Valid(r.value)
    decreases fuel
  {
    var w := Sweep(units, 0, t);
    if w.1 then Some(w.0)
    else if fuel == 0 then None
    else Settle(units, w.0, fuel - 1)
  }

  /** The pass from unit i on: unit i's `Next`, then the rest unless it failed. */
  lemma SweepStep(units: seq<TimeUnit>, i: nat, t: DateTime)
    requires i < |units| && Valid(t) && Runnable(units)
    ensures var a := Advance(units[i], t);
      Sweep(units, i, t) == if !a.1 then a else Sweep(units, i + 1, a.0)
  {
  }

  /** A pass that is cut short hands the search on to the next pass. */
  lemma SettleRolls(units: seq<TimeUnit>, t: DateTime, fuel: nat, n: DateTime)
    requires Valid(t) && Runnable(units) && fuel > 0 && Sweep(units, 0, t) == (n, false)
    ensures Valid(n) && Settle(units, t, fuel) == Settle(units, n, fuel - 1)
  {
  }

  /** A pass that is cut short with no fuel left ends the search empty-handed. */
  lemma SettleStops(units: seq<TimeUnit>, t: DateTime, n: DateTime)
    requires Valid(t) && Runnable(units) && Sweep(units, 0, t) == (n, false)
    ensures Settle(units, t, 0) == None
  {
  }

  /** A pass that goes through ends the search. */
  lemma SettleDone(units: seq<TimeUnit>, t: DateTime, fuel: nat, r: DateTime)
    requires Valid(t) && Runnable(units) && Sweep(units, 0, t) == (r, true)
    ensures Settle(units, t, fuel) == Some(r)
  {
  }

  /** `nextAfter`, as the loop over the units that restarts itself on the first failure. */
  method NextAfter(s: Schedule, after: DateTime, fuel: nat) returns (r: Option<DateTime>)
    requires Valid(after) && Runnable(s.timeUnits)
    ensures r == Settle(s.timeUnits, after, fuel)
    decreases fuel
  {
    var units := s.timeUnits;
    var t := after;
    var i := 0;
    while i < |units|
      invariant 0 <= i <= |units| && Valid(t)
      invariant Sweep(units, 0, after) == Sweep(units, i, t)
    {
      SweepStep(units, i, t);
      var ok;
      t, ok := TimeUnits.Next(units[i], t);
      if !ok {
        if fuel == 0 {
          SettleStops(units, after, t);
          return None;
        }
        var rest := fuel - 1;
        SettleRolls(units, after, fuel, t);
        r := NextAfter(s, t, rest);
        return;
      }
      i := i + 1;
    }
    SettleDone(units, after, fuel, t);
    return Some(t);
  }

  /**
   * `Schedule.Next`: the search starts one second after `after` (a time
   * here has no part below the second, so truncating it changes nothing);
   * a result found is strictly later than `after`.
   */
  method Next(s: Schedule, after: DateTime, fuel: nat) returns (r: Option<DateTime>)
    requires Valid(after) && Runnable(s.timeUnits) && AllParsed(s.timeUnits)
    ensures r == Settle(s.timeUnits, AddSeconds(after, 1), fuel)
    ensures r.Some? ==> Valid(r.value) && Before(after, r.value)
  {
    var start := AddSeconds(after, 1);
    r := NextAfter(s, start, fuel);
    if r.Some? {
      SettleMonotone(s.timeUnits, start, fuel, r.value);
    }
  }

  /** A pass never moves backwards, and one cut short has moved strictly forwards. */
  lemma {:induction false} SweepMonotone(units: seq<TimeUnit>, i: nat, t: DateTime)
    requires i <= |units| && Valid(t) && Runnable(units) && AllParsed(units)
    ensures Instant(t) <= Instant(Sweep(units, i, t).0)
    ensures !Sweep(units, i, t).1 ==> Instant(t) < Instant(Sweep(units, i, t).0)
    decreases |units| - i
  {
    if i < |units| {
      var a := Advance(units[i], t);
      AdvanceMonotone(units[i], t);
      if a.1 {
        SweepMonotone(units, i + 1, a.0);
      }
    }
  }

  /** `nextAfter`'s result is never earlier than its argument. */
  lemma {:induction false} SettleMonotone(units: seq<TimeUnit>, t: DateTime, fuel: nat, r: DateTime)
    requires Valid(t) && Runnable(units) && AllParsed(units)
    requires Settle(units, t, fuel) == Some(r)
    ensures Instant(t) <= Instant(r)
    decreases fuel
  {
    var n, done := Restart(units, t, fuel, r);
    if !done {
      SettleMonotone(units, n, fuel - 1, r);
    }
  }

  /** The first pass of `nextAfter`: either it goes through to the result, or the search restarts later. */
  lemma Restart(units: seq<TimeUnit>, t: DateTime, fuel: nat, r: DateTime) returns (n: DateTime, done: bool)
    requires Valid(t) && Runnable(units) && AllParsed(units)
    requires Settle(units, t, fuel) == Some(r)
    ensures Valid(n) && Instant(t) <= Instant(n)
    ensures done ==> r == n && Sweep(units, 0, t) == (r, true)
    ensures !done ==> fuel > 0 && Settle(units, n, fuel - 1) == Some(r)
  {
    SweepMonotone(units, 0, t);
    n, done := Sweep(units, 0, t).0, Sweep(units, 0, t).1;
  }

  /**
   * No later unit changes a field an earlier unit depends on: every unit
   * after unit i keeps at least the fields unit i is matched on.
   */
  predicate Layered(units: seq<TimeUnit>) {
    forall i, j :: 0 <= i < j < |units| ==> Depends(units[i]) <= Keeps(units[j])
  }

  /** The parser's order of units (month, day, weekday, hour, minute, second) is layered. */
  lemma ParseOrderLayered(units: seq<TimeUnit>)
    requires InParseOrder(units)
    ensures Layered(units)
  {
  }

  /** A pass from unit i on that goes through keeps every field that all of those units keep. */
  lemma {:induction false} SweepKeeps(units: seq<TimeUnit>, i: nat, t: DateTime, k: nat)
    requires i <= |units| && Valid(t) && Runnable(units) && AllParsed(units) && Sweep(units, i, t).1
    requires forall j :: i <= j < |units| ==> k <= Keeps(units[j])
    ensures Agree(t, Sweep(units, i, t).0, k)
    decreases |units| - i
  {
    if i < |units| {
      AdvanceKeeps(units[i], t);
      SweepKeeps(units, i + 1, Advance(units[i], t).0, k);
    }
  }

  /** After a pass of layered units that goes through to r, every unit from i on is matched by r. */
  lemma SweepMatched(units: seq<TimeUnit>, i: nat, t: DateTime, r: DateTime)
    requires i <= |units| && Valid(t) && Runnable(units) && Sound(units) && Layered(units)
    requires Sweep(units, i, t) == (r, true)
    ensures forall j :: i <= j < |units| ==> Matched(units[j], r)
  {
    forall j | i <= j < |units|
      ensures Matched(units[j], r)
    {
      SweepMatchedAt(units, i, t, r, j);
    }
  }

  /** After a pass of layered units that goes through to r, unit j (from i on) is matched by r. */
  lemma {:induction false} SweepMatchedAt(units: seq<TimeUnit>, i: nat, t: DateTime, r: DateTime, j: nat)
    requires i <= j < |units| && Valid(t) && Runnable(units) && Sound(units) && Layered(units)
    requires Sweep(units, i, t) == (r, true)
    ensures Matched(units[j], r)
    decreases j - i
  {
    if j == i {
      var _ := HeadMatched(units, i, t, r);
    } else {
      var n := HeadMatched(units, i, t, r);
      SweepMatchedAt(units, i + 1, n, r, j);
    }
  }

  /** The first unit of a pass that goes through to r is matched by r. */
  lemma HeadMatched(units: seq<TimeUnit>, i: nat, t: DateTime, r: DateTime) returns (n: DateTime)
    requires i < |units| && Valid(t) && Runnable(units) && Sound(units) && Layered(units)
    requires Sweep(units, i, t) == (r, true)
    ensures Valid(n) && Sweep(units, i + 1, n) == (r, true)
    ensures Matched(units[i], r)
  {
    var u := units[i];
    n := Advance(u, t).0;
    AdvanceMatches(u, t);
    SweepKeeps(units, i + 1, n, Depends(u));
    MatchedDepends(u, n, r);
  }

  /** When `nextAfter` returns, every unit of a layered schedule is matched by its result. */
  lemma {:induction false} SettleMatched(units: seq<TimeUnit>, t: DateTime, fuel: nat, r: DateTime)
    requires Valid(t) && Runnable(units) && Sound(units) && Layered(units)
    requires Settle(units, t, fuel) == Some(r)
    ensures forall i :: 0 <= i < |units| ==> Matched(units[i], r)
    decreases fuel
  {
    var n, done := Restart(units, t, fuel, r);
    if done {
      SweepMatched(units, 0, t, r);
    } else {
      SettleMatched(units, n, fuel - 1, r);
    }
  }

  /** `Parse` hands the expression to the parser. */
  method Parse(expression: string) returns (schedule: Schedule, err: Option<Error>)
    ensures Parser.ParsedFrom(expression, schedule, err)
  {
    schedule, err := Parser.Parse(expression);
  }

  /** The expression is read into six fields, and day and weekday are not both `?`. */
  predicate Accepted(expression: string) {
    var read := Parser.Reading(expression);
    read.Ok? && |read.value| == 6 && !(Parser.HasNotSpecified(read.value[0]) && Parser.HasNotSpecified(read.value[2]))
  }

  /**
   * `Must`: the schedule when `Parse` reports no error, the error (Go's
   * panic) otherwise.
   */
  method Must(expression: string) returns (r: Result<Schedule, Error>)
    ensures r.Ok? <==> Accepted(expression)
    ensures r.Ok? ==> Parser.ParsedFrom(expression, r.value, None)
    ensures r.Err? ==> exists s :: Parser.ParsedFrom(expression, s, Some(r.error))
  {
    var schedule, err := Parse(expression);
    if err.Some? {
      return Err(err.value);
    }
    return Ok(schedule);
  }
}

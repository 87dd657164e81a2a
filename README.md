# gocron in Dafny

A verified model of gocron, a Go library that parses six-field Cron
expressions (`seconds minutes hours days months weekdays`) into a
`Schedule` and computes the next activation time after a given instant.

The model follows the library's structure:

| file | module | models |
|---|---|---|
| `calendar.dfy` | `Calendar` | the part of Go's `time` package the library uses. This is a proleptic Gregorian UTC calendar at one-second resolution: `time.Date`'s normalisation of out-of-range fields, `Weekday`, `Add`, and the ordering of instants |
| `errors.dfy` | `Errors` | `error.go`: the four sentinel errors, `TimeUnitError`, `TimeUnitKind.String`, `Error()` and `Is` |
| `text.dfy`, `results.dfy`, `wrappers.dfy` | `Text`, `Results`, `Wrappers` | the few `strings`/`strconv` functions the parser calls, the stop-at-first-error loop of `parse`, and `Option`/`Result` |
| `timeset.dfy` | `TimeSets` | the six `timeSet` kinds of `parser.go` (`?`, a single value, `a-b`, `a/n`, `L-n`, `wL`) with their `Compare`, `Value`, `SubsetOf` and `Less` |
| `parser.dfy` | `Parser` | `cronParser.Parse`, `parse`, `parseRange`, `parseInterval`, `isNotSpecified`, the converters, and `sort.Sort(sortableUnit(...))` as an in-place insertion sort over an array using `sortableUnit.Swap` |
| `timeunit.dfy` | `TimeUnits` | `time-unit.go`: the `Next` and `Previous` scans of the six unit kinds, and `setSeconds` … `setYears` |
| `cron.dfy` | `Cron` | `cron.go`: `Schedule.Next`, `nextAfter`, `Parse` and `Must` |
| `vectors.dfy` | `Vectors` | the two documented examples, from the expression text to the activation times |

Each loop of the source is a method proved against a specification
function: `Next`/`Previous` against `Advance`/`Retreat`, `nextAfter` against
`Settle`, `parse` against `FieldSets`, `Parse` against `ParsedFrom`. The
properties the library promises are lemmas about those functions.

The main results:
- `Next` never goes backwards, for every schedule the parser accepts. Its result is strictly later than its argument.
- When the search returns, every field is matched by its unit, when every range runs upwards. A descending range such as `10-5`, which the parser accepts, can yield an unmatched activation.
- For sorted units and ranges, the forward scan picks the least matching value.
- The parser accepts only in-domain sets and reports the first failing field.
- The two example schedules parse exactly as expected and fire at the documented times.

## Model

| member | source | states |
|---|---|---|
| Calendar.DaysIn | time-unit.go:256-258 | months have 28 to 31 days; February has 29 exactly in Gregorian leap years |
| Calendar.CarryMonths | time-unit.go:260-262 | the month is reduced into 1..12 and the excess carried into the year, keeping year*12+month; an in-range month is left alone |
| Calendar.CarryClock | time-unit.go:244-254 | seconds, minutes and hours are reduced into range and carried into the next coarser field without changing the total number of seconds |
| Calendar.CarryDays | time-unit.go:256-258 | an out-of-range day is carried into neighbouring months: the result is a valid date with the same day number, and a valid date is unchanged |
| Calendar.Date | time-unit.go:244-266 | `time.Date` yields a valid reading of exactly the instant its fields denote, and an already-valid reading is returned unchanged |
| Calendar.AddSeconds | cron.go:36 | adding n seconds yields a valid time exactly n seconds later |
| Calendar.Weekday | parser.go:345 | the weekday lies in 0..6 |
| Calendar.WeekdayEpoch | parser.go:345 | the numbering is Go's, Sunday = 0: January 1st, 1970 is a Thursday (4) |
| Calendar.WeekdayNextDay | parser.go:345 | a day later is the next weekday, Saturday (6) wrapping round to Sunday (0), across month and year ends |
| Calendar.LastDayOfMonth | parser.go:364-366 | `findLastDayOfMonth` is midnight of the month's last day |
| Calendar.MonthStep | parser.go:364-366 | the first of the following month lies exactly DaysIn days after the first of this month |
| Calendar.DayOverflow | time-unit.go:139-148 | a day less than four weeks past the month's end lands in the following month at the excess |
| Calendar.YearEnd | time-unit.go:191 | every day of a year precedes January 1st of the next year |
| Errors.NewTimeUnitErr | error.go:22-24 | `newTimeUnitErr` keeps the kind and the inner error, and `Kind()` returns that kind |
| Errors.KindString | error.go:57-59 | `String` gives one of the seven names, and for 0..6 the name at that index |
| Errors.KindStringPeriodic | error.go:57-59 | the name of k+7 is the name of k (wrap-around modulo 7) |
| Errors.KindStringInjective | error.go:55 | distinct kinds 0..6 have distinct names |
| Errors.SentinelMessagesDistinct | error.go:8-13 | the four sentinel errors have pairwise distinct messages |
| Errors.MessageDeterminesKind | error.go:31-33 | equal `TimeUnitError` messages imply the same kind and the same inner message |
| Errors.WrappedMessage | error.go:31-33 | a `TimeUnitError` renders as "time unit `<kind>` malformed: <inner>" |
| Errors.IsBetweenWraps | error.go:35-41 | against a `TimeUnitError` target, `Is` holds iff the kinds are equal and the inner errors match |
| Errors.IsThroughWrap | error.go:35-41 | against any other target, `Is` defers to the inner error, so a wrapped sentinel still matches it |
| Errors.SentinelIs | error.go:8-13 | a sentinel matches exactly itself |
| Text.Split | parser.go:14 | `strings.Split` on one character: at least one piece, no piece holds the separator, and joining the pieces gives the input back |
| Text.SplitJoin | parser.go:14 | splitting a join of separator-free pieces gives the pieces back |
| Text.ContainsSpec | parser.go:80-82 | `strings.Contains` holds iff the substring occurs at some position |
| Text.TrimPrefix | parser.go:401 | with the prefix present, prefix + result is the input; otherwise the input is returned |
| Text.TrimSuffix | parser.go:383 | with the suffix present, result + suffix is the input; otherwise the input is returned |
| Text.ToLower | parser.go:390 | the result has the input's length; each ASCII letter A..Z becomes the letter 32 code points later (its lower case), every other character is kept, so no upper-case ASCII letter remains |
| Text.ToLowerIdempotent | parser.go:390 | lower-casing twice is lower-casing once |
| Text.AtoiItoa | parser.go:408 | `Atoi` reads back every integer's decimal spelling |
| Results.CollectOk | parser.go:76-97 | the token loop succeeds iff every token does, with one set per token in order |
| Results.CollectErr | parser.go:88-94 | a failing token loop reports the first token's error, all earlier tokens having succeeded |
| TimeSets.CompareInt | parser.go:188-197 | a single value is Less, Equal or Greater exactly when it is below, at or above `other` |
| TimeSets.IntervalValueLeast | parser.go:280-291 | with a positive step, `Value` is the least on-step value at or above both `other` and the start |
| TimeSets.IntervalCompareSpec | parser.go:264-278 | with a positive step, Equal iff `other` is on-step between start and end; Greater iff the next on-step value is above `other` and within the end |
| TimeSets.RangeCompareSpec | parser.go:227-240 | a range is Less iff its end is below `other`, Greater iff `other` is below its start, Equal within; its `Value` is its start |
| TimeSets.NthLastDaySpec | parser.go:316-322 | `NthLastDayOfMonth(k)`, the set the token `L-(k+1)` produces, is the month's last day minus k and matches exactly that day |
| TimeSets.LastWeekDaySpec | parser.go:338-351 | `wL` is the day among the month's last seven whose weekday is w, and matches exactly when t is on that day |
| TimeSets.WeekdayBack | parser.go:343-351 | going k days back within a month moves the weekday k back modulo 7 |
| TimeSets.GreaterAdvances | parser.go:264-278 | a Greater verdict's `Value` lies strictly above `other` |
| TimeSets.GreaterBounded | parser.go:91-94 | a Greater verdict's `Value` of a set within its domain stays at or below the domain's maximum |
| TimeSets.GreaterAdmitted | parser.go:264-278 | a Greater verdict's `Value` is itself matched by the set |
| TimeSets.LessExcludesAbove | parser.go:227-236 | a Less verdict means no value at or above `other` matches |
| TimeSets.GreaterIsLeast | parser.go:264-291 | a Greater verdict's `Value` is at or below every matching value above `other` |
| TimeSets.SubsetOfSound | parser.go:203-205 | every value a domain-checked set matches lies in the domain |
| TimeSets.LessByKey | parser.go:207-257 | `Less` between units, ranges and intervals compares their lower ends |
| TimeSets.UnkeyedNeverLess | parser.go:181-183 | `?`, `L-n` and `wL` are never `Less` than anything |
| TimeSets.AdmitsAboveKey | parser.go:227-240 | a unit or range matches only values at or above its lower end |
| TimeSets.SameMonthCompare | parser.go:316-351 | a set's verdict depends on the instant only through its month (and its day for `wL`) |
| TimeSets.RoundUpLeast | parser.go:285-290 | the round-up is the least on-step value at or above `other` |
| TimeSets.RoundUpStays | parser.go:285-290 | rounding an already-rounded value up again leaves it unchanged |
| TimeUnits.SetSeconds | time-unit.go:244-246 | `setSeconds` moves within the minute to the given second (carried when out of range) |
| TimeUnits.SetMinutes | time-unit.go:248-250 | `setMinutes` moves to the given minute of the hour, second 0 |
| TimeUnits.SetHours | time-unit.go:252-254 | `setHours` moves to the given hour of the day, 00:00 |
| TimeUnits.SetDays | time-unit.go:256-258 | `setDays` moves to midnight of the given day, or into the next month past the month's end |
| TimeUnits.SetMonths | time-unit.go:260-262 | `setMonths` moves to midnight of the first of the given month; month 13 is next January |
| TimeUnits.SetYears | time-unit.go:264-266 | `setYears` moves to midnight of January 1st of the given year |
| TimeUnits.FirstDecisive | time-unit.go:15-22 | the scan stops at the first set that is not Less (for weekdays, the first Equal one) |
| TimeUnits.Roll | time-unit.go:24 | the `false` branch bumps the parent field by one, zeroes this and every finer field, and is strictly later |
| TimeUnits.Next | time-unit.go:10-25 | each unit's early-exit scan computes `Advance` |
| TimeUnits.AdvanceAccepts | time-unit.go:11-18 | with no sets, or an Equal first decisive set, the instant is returned unchanged with `true` |
| TimeUnits.AdvanceRolls | time-unit.go:216-228 | with no decisive set, the unit rolls its parent field over and returns `false` |
| TimeUnits.AdvanceJumps | time-unit.go:129-153 | a Greater set moves the field to its in-domain value above the current one, zeroing finer fields and keeping coarser ones; a day past the month's end gives midnight of the next month's first with `false` |
| TimeUnits.JumpPut | time-unit.go:129-153 | with a value above the field and within its domain, the Greater branch sets the field and zeroes finer ones, or for a day past the month's end yields the next month's first with `false` |
| TimeUnits.PutLater | time-unit.go:129-153 | setting a field to a larger value it can take moves the instant strictly later |
| TimeUnits.AdvanceMonotone | time-unit.go:10-228 | `Next` never goes back: it keeps the instant with `true`, or moves strictly later |
| TimeUnits.AdvanceKeeps | time-unit.go:244-266 | a successful `Next` leaves the coarser fields unchanged |
| TimeUnits.MatchedDepends | time-unit.go:129-228 | whether a unit matches depends only on its own field and the coarser ones |
| TimeUnits.AdvanceMatches | time-unit.go:15-22 | after a successful `Next`, the unit's field is matched |
| TimeUnits.ScanFindsLeast | time-unit.go:15-22 | for sorted units and ranges, a Greater verdict picks the least matching value above the field, and no decisive set means nothing at or above matches |
| TimeUnits.DescendingUnmatched | time-unit.go:10-48 | for a descending range `a-b` on seconds, which the parser accepts, `Next` from a second at or below b jumps to second a with `true`, although a is not matched |
| TimeUnits.LastDaySkips | parser.go:207-217 | `Less` orders neither `L` before a day d nor d before `L`; with `L,d` scanned in that order, `Next` from a day before d jumps to the month's last day with `true`, skipping a matching midnight of day d |
| TimeUnits.IntervalFirstNotLeast | time-unit.go:15-22 | with `10/20,15` at second 12 the scan jumps to 30, although 15 matches |
| TimeUnits.LastDecisive | time-unit.go:32-39 | the backward scan stops at the last set that is not Greater (for weekdays, the last Equal one) |
| TimeUnits.Fallback | time-unit.go:42 | `Previous`'s `false` branch lands one second before the start of the parent's current value, or for weekdays at midnight of the previous day; strictly earlier |
| TimeUnits.Previous | time-unit.go:27-43 | each unit's backward early-exit scan computes `Retreat` |
| TimeUnits.RetreatFallsBack | time-unit.go:230-242 | with no back-decisive set, `Previous` returns `false` at a strictly earlier instant |
| Parser.ConvertUnit | parser.go:407-410 | `convertUnit` gives a single value, or a number-syntax error |
| Parser.ConvertWeekDay | parser.go:378-394 | `convertWeekDay` gives a weekday-shaped set, or a number-syntax error |
| Parser.ConvertWithLastDayOfMonth | parser.go:396-405 | `convertWithLastDayOfMonth` gives a day-shaped set, or a number-syntax error |
| Parser.ParseRange | parser.go:102-119 | `parseRange` gives a range of converted ends, or a malformed-field or number error |
| Parser.ParseInterval | parser.go:121-152 | `parseInterval` gives an interval of converted ends, or a malformed-field or number error |
| Parser.ParseToken | parser.go:79-94 | an accepted token is shaped for its field, lies within the domain, and is never `?`; errors are malformed-field, out-of-range or number errors |
| Parser.TokensSpec | parser.go:76-97 | the field succeeds iff every token does, with one set per token in order; otherwise the first failing token's error |
| Parser.FieldSetsSound | parser.go:67-97 | every set of a field is shaped and within the domain, and `?` is among them exactly when the field is `?` |
| Parser.ParseField | parser.go:67-100 | `parse` computes `FieldSets` |
| Parser.ParseList | parser.go:76-97 | the append loop with early return computes the collected token results |
| Parser.IsNotSpecified | parser.go:155-162 | `isNotSpecified` holds iff some set is `?` |
| Parser.Swap | time-unit.go:280-282 | `Swap` exchanges the two elements in place |
| Parser.SwapPermutes | time-unit.go:280-282 | an exchange keeps the multiset of sets |
| Parser.SortUnit | parser.go:48-53 | sorting in place yields a permutation, ordered by lower end whenever every set has one |
| Parser.SortSets | parser.go:48-53 | the sorted copy of a field is a permutation of it, ordered by lower end whenever every set has one |
| Parser.FieldOutcome | parser.go:19-42 | a failing field's error is a `TimeUnitError` |
| Parser.ReadFieldsSpec | parser.go:19-42 | the six fields read to their own sets, or the first failing field in the order weekday, month, day, hour, minute, second is reported, wrapped with its kind |
| Parser.ParseFields | parser.go:19-42 | the six `parse` calls compute `ReadFields` |
| Parser.Parse | parser.go:13-65 | `Parse` yields exactly the schedule and error `ParsedFrom` describes |
| Parser.Assemble | parser.go:48-62 | the units are laid out month, day, weekday, hour, minute, second, each holding its field's sets sorted |
| Parser.ParseSound | parser.go:19-62 | every set of a parsed schedule has its unit's shape and lies in its unit's domain |
| Parser.AssembledParsed | parser.go:48-62 | units assembled from fields that were read successfully satisfy `Parsed` |
| Parser.FieldOfUnit | parser.go:55-62 | unit i holds a sorted copy of the field read for it, with that field's converter and domain |
| Parser.FieldParsed | parser.go:19-42 | a field's sets have its converter's shapes and lie in its domain |
| Parser.ParseCountsFields | parser.go:14-17 | an expression is refused as malformed exactly when it does not have six space-separated fields |
| Parser.MalformedIffCount | parser.go:14-17 | `ErrMalformedExpression` is reported iff splitting on a space does not give six fields |
| Parser.DoubleNotSpecified | parser.go:44-46 | a readable expression gets `ErrMultipleNotSpecified` iff both the day and the weekday fields are `?`, and otherwise no error |
| Parser.SingleValueToken | parser.go:84-85 | a token with neither `/` nor `-` is handed to the converter |
| Parser.UnitToken | parser.go:407-410 | a number is the single value it spells when in the domain, and out of range otherwise |
| Parser.RangeParses | parser.go:102-119 | `m-n` reads as the range from m to n |
| Parser.RangeToken | parser.go:102-119 | `m-n` is the range from m to n when both lie in the domain |
| Parser.RangeSplits | parser.go:103 | two dash-free strings joined by a dash split back into the two |
| Parser.EveryStepToken | parser.go:133-136 | `*/n` steps by n through the whole domain |
| Parser.StepFromToken | parser.go:142-149 | `a/n` steps by n from a up to the domain's maximum, when a is in the domain |
| Parser.LastDayTokens | parser.go:396-405 | day `L` is the last day; `L-n` is stored as n-1 and accepted exactly for 1 <= n <= 31 |
| Parser.WeekdayNameShape | parser.go:368-376 | the weekday names are three lower-case letters mapping into 0..6 |
| Parser.WeekdayLastTokens | parser.go:379-388 | weekday `L` is Saturday, and `wL` is the last weekday w of the month |
| Parser.WeekdayNumberToken | parser.go:393 | a numeric weekday is accepted in 0..6 only |
| Parser.WeekdayNameToken | parser.go:390-392 | a weekday name in any letter case is its weekday |
| Cron.NextAfter | cron.go:40-49 | the loop with restart by recursion computes `Settle` |
| Cron.Next | cron.go:33-38 | the result is the search from one second after the argument, and strictly later than the argument |
| Cron.SweepMonotone | cron.go:40-49 | a pass never goes back, and a pass cut short moves strictly later |
| Cron.SettleMonotone | cron.go:40-49 | the search's result is at or after its start |
| Cron.Restart | cron.go:44-45 | a search either ends with a pass that goes through, or restarts from a later instant |
| Cron.ParseOrderLayered | parser.go:55-62 | in the parser's unit order, no later unit changes a field an earlier unit depends on |
| Cron.SweepKeeps | cron.go:42-47 | a pass that goes through keeps every field that all the units it ran keep |
| Cron.SweepMatched | cron.go:42-48 | after a pass that goes through, every unit it ran is matched |
| Cron.HeadMatched | cron.go:42-48 | the first unit of a pass that goes through stays matched by the final result |
| Cron.SettleMatched | cron.go:40-49 | when the search returns, every field of the result is matched by its unit (or its unit has no sets) |
| Cron.Parse | cron.go:20-22 | `Parse` hands the expression to the parser |
| Cron.Must | cron.go:25-31 | `Must` yields the schedule exactly when parsing reports no error, and that error otherwise |
| Vectors.Accepts | time-unit.go:11-18 | a unit with no sets, or only `?`, accepts every instant |
| Vectors.QuarterMinute | time-unit.go:19-20 | the seconds unit of `*/15` moves to the next multiple of 15 below 60 |
| Vectors.EveryFifteenSeconds | examples_test.go:10-22 | before second 45, the next activation of `*/15 * * * ? *` is the next quarter of the minute |
| Vectors.EveryFifteenParsed | examples_test.go:11 | parsing `*/15 * * * ? *` yields exactly the every-fifteen-seconds schedule and no error |
| Vectors.FirstQuarter | examples_test.go:13-20 | from 2023-06-04 00:00:00, the schedule fires first at 00:00:15 |
| Vectors.SecondQuarter | examples_test.go:16-21 | from 00:00:15, it fires next at 00:00:30 |
| Vectors.LastFridaysParsed | examples_test.go:25 | parsing `0 0 0 ? * 5L` yields exactly the last-Friday schedule and no error |
| Vectors.FridayBound | parser.go:343-351 | `5L` stands for a Friday among the month's last seven days |
| Vectors.FridayCompare | parser.go:338-341 | `5L` compares the current day with the month's last Friday |
| Vectors.DayRoll | time-unit.go:216-228 | on any day but the last Friday, a pass stops at the weekday unit and moves on to the next midnight |
| Vectors.FridayMidnight | cron.go:40-49 | midnight of the last Friday goes through the whole schedule |
| Vectors.Walk | cron.go:40-49 | for a schedule firing once a day at midnight, the search walks one day per pass up to the firing day |
| Vectors.WalkOut | cron.go:40-49 | past the month's firing day, the walk continues into the next month's firing day |
| Vectors.FirstFriday | cron.go:33-38 | from midnight of a day before the month's last Friday, the next activation is that Friday's midnight |
| Vectors.NextFriday | cron.go:33-38 | from midnight of a month's last Friday, the next activation is the next month's last Friday |
| Vectors.JuneLastFriday | examples_test.go:27-34 | from 2023-06-04 00:00:00, `0 0 0 ? * 5L` fires first at 2023-06-30 00:00:00 |
| Vectors.JulyLastFriday | examples_test.go:30-35 | from 2023-06-30 00:00:00, it fires next at 2023-07-28 00:00:00 |

## Left out

- Time zones, daylight saving time, the monotonic clock and nanoseconds are not modelled. Times are UTC at one-second resolution, so `Truncate(1 * time.Second)` in `Schedule.Next` is the identity.
- Cron.NextAfter: the source loops without bound (`* * * 31 2 ?` never returns). The model takes a `fuel` bound on the number of restarts and answers None beyond it. The zero time promised for "none can be found" is not modelled.
- TimeSets.Compare and TimeSets.Value require a non-zero step (`StepsNonZero`). A step of 0 is accepted by the parser and makes Go divide by zero at runtime. Negative steps are computed as Go does, but the interval lemmas assume a positive step.
- Text.Atoi reads an optional sign and decimal digits. A rejected number is the value `NumError(text)`, which keeps the rejected text. The overflow of Go's `int` (`strconv.ErrRange`) is not modelled.
- Errors.Is: a `NumError` is compared as a value, so two syntax errors for the same text match each other. In Go every failing `strconv.Atoi` returns a fresh `*strconv.NumError`, which `errors.Is` compares by pointer and which unwraps to `strconv.ErrSyntax`. Neither that pointer identity nor that unwrapping is modelled.
- Errors.Message: the rejected text of a `NumError` is quoted with plain double quotes. Go quotes it with `strconv.Quote`, which also escapes special characters; that escaping is not modelled.
- Text.ToLower folds ASCII letters only.
- Cron.Must: Go panics on a parse error; the model returns the error as an `Err` result.
- Parser.Parse: when both day and weekday are `?`, Go returns the fully built schedule together with `ErrMultipleNotSpecified`; the model does the same. On a failing field it returns an empty schedule, as Go's zero value does.
- Parser.SortUnit and Parser.SortSets: `sort.Sort`'s own algorithm is not modelled. The sort is an insertion sort specified only as an ordered permutation. Ordering is guaranteed only when every set has a plain lower end: `?`, `L-n` and `wL` are never `Less`, so `Less` is not a strict weak order over them. The relative order of equal keys (Go's sort is unstable) is not specified. In particular, the model leaves open whether `L,15` in the day field stays in that order, which in Go it does; TimeUnits.LastDaySkips shows that in that order the scan skips the 15th.
- Cron.SettleMatched, Cron.SweepMatched, Cron.HeadMatched, TimeUnits.AdvanceMatches and TimeUnits.ScanFindsLeast hold for parsed units whose ranges run upwards (`Sound`, `WellFormed`). The parser also accepts descending ranges such as `10-5`, and on those Go's `Next` can return an instant its unit does not match, as TimeUnits.DescendingUnmatched shows. Matching also needs the parser's unit order (`Layered`). Monotonicity (TimeUnits.AdvanceMonotone, Cron.SettleMonotone, Cron.Next) holds for every unit the parser lets through (`Parsed`, `AllParsed`).
- TimeUnits.ScanFindsLeast holds for lists of units and ranges only. With intervals the scan can skip a smaller match, as TimeUnits.IntervalFirstNotLeast shows.
- TimeUnits.Previous is modelled as written, and only its `false` branch is characterised. `Previous` is not part of the `TimeUnit` interface, and reusing the upward `Value` does not make it a correct backward search, so no backward-correctness property is claimed.
- Vectors.FirstFriday and Vectors.NextFriday: the `5L` activations are proved for searches starting at midnight, which covers both documented examples.
- Test-only features are not part of this model, because the library source does not define them: `MustParse`, `Upcoming`, `Schedule.Previous`, the `#` token, and the `Parser{}` type named at cron.go:21, where parser.go declares `cronParser`.
- Printing the examples' output (`fmt`) is left out.

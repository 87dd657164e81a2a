/**
 * The errors a cron expression can be rejected with: four sentinel errors,
 * the integer syntax error of `strconv.Atoi`, and `TimeUnitError`, which
 * wraps another error together with the kind of field it was found in.
 */
module Errors {

  /** `TimeUnitKind`: which field of the expression an error belongs to. */
  type TimeUnitKind = int

  const Seconds: TimeUnitKind := 0
  const Minutes: TimeUnitKind := 1
  const Hours: TimeUnitKind := 2
  const Days: TimeUnitKind := 3
  const Months: TimeUnitKind := 4
  const WeekDays: TimeUnitKind := 5
  const Years: TimeUnitKind := 6

  const Kinds: seq<string> := ["seconds", "minutes", "hours", "days", "months", "week days", "years"]

  datatype Error =
    | ErrMalformedExpression
    | ErrMalformedField
    | ErrMultipleNotSpecified
    | ErrValueOutsideRange
    | NumError(num: string)                          // `strconv.Atoi` rejected `num`
    | TimeUnitError(inner: Error, kind: TimeUnitKind)

  predicate IsSentinel(e: Error) {
    e.ErrMalformedExpression? || e.ErrMalformedField? || e.ErrMultipleNotSpecified? || e.ErrValueOutsideRange?
  }

  /** `newTimeUnitErr`. */
  function NewTimeUnitErr(kind: TimeUnitKind, inner: Error): (e: Error)
    ensures e.TimeUnitError? && Kind(e) == kind && e.inner == inner
  {
    TimeUnitError(inner, kind)
  }

  /** `TimeUnitError.Kind`. */
  function Kind(e: Error): TimeUnitKind
    requires e.TimeUnitError?
  {
    e.kind
  }

  /**
   * `TimeUnitKind.String`: the name at index k modulo 7. Go's remainder keeps
   * the sign of k, so a negative k that is not a multiple of 7 indexes out of
   * range; a multiple of 7 names "seconds" whatever its sign.
   */
  function KindString(k: TimeUnitKind): (name: string)
    requires k >= 0 || k % 7 == 0
    ensures name in Kinds
    ensures 0 <= k < 7 ==> name == Kinds[k]
  {
    Kinds[k % 7]
  }

  /** The names repeat with period 7 ... */
  lemma KindStringPeriodic(k: TimeUnitKind)
    requires k >= 0
    ensures KindString(k + 7) == KindString(k)
  {
  }

  /** ... and the seven kinds have seven different names. */
  lemma KindStringInjective(j: TimeUnitKind, k: TimeUnitKind)
    requires 0 <= j < 7 && 0 <= k < 7 && j != k
    ensures KindString(j) != KindString(k)
  {
    KindInitials(j);
    KindInitials(k);
  }

  /** The first two letters of each kind's name. */
  function Initials(k: TimeUnitKind): (char, char) {
    if k == 0 then ('s', 'e') else if k == 1 then ('m', 'i') else if k == 2 then ('h', 'o')
    else if k == 3 then ('d', 'a') else if k == 4 then ('m', 'o') else if k == 5 then ('w', 'e')
    else ('y', 'e')
  }

  lemma KindInitials(k: TimeUnitKind)
    requires 0 <= k < 7
    ensures |KindString(k)| >= 2 && (KindString(k)[0], KindString(k)[1]) == Initials(k)
  {
    if k == 0 {
      assert KindString(k) == "seconds";
    } else if k == 1 {
      assert KindString(k) == "minutes";
    } else if k == 2 {
      assert KindString(k) == "hours";
    } else if k == 3 {
      assert KindString(k) == "days";
    } else if k == 4 {
      assert KindString(k) == "months";
    } else if k == 5 {
      assert KindString(k) == "week days";
    } else {
      assert KindString(k) == "years";
    }
  }

  /** `Error()`; a syntax error reads `strconv.Atoi: parsing "<num>": invalid syntax`. */
  function Message(e: Error): string
    requires Printable(e)
  {
    match e
    case ErrMalformedExpression => "expression is malformed"
    case ErrMalformedField => "unexpected field value"
    case ErrMultipleNotSpecified => "only one `?` is supported"
    case ErrValueOutsideRange => "values are outside the supported range"
    case NumError(num) => "strconv.Atoi: parsing \"" + num + "\": invalid syntax"
    case TimeUnitError(inner, kind) =>
      "time unit `" + KindString(kind) + "` malformed: " + Message(inner)
  }

  /** Every kind in a chain of wrapped errors has a name. */
  predicate Printable(e: Error) {
    match e
    case TimeUnitError(inner, kind) => (kind >= 0 || kind % 7 == 0) && Printable(inner)
    case _ => true
  }

  /** The four sentinels print four different messages. */
  lemma SentinelMessagesDistinct(a: Error, b: Error)
    requires IsSentinel(a) && IsSentinel(b) && a != b
    ensures Message(a) != Message(b)
  {
    SentinelInitial(a);
    SentinelInitial(b);
  }

  lemma SentinelInitial(e: Error)
    requires IsSentinel(e)
    ensures |Message(e)| > 0
    ensures Message(e)[0] == (match e
      case ErrMalformedExpression => 'e'
      case ErrMalformedField => 'u'
      case ErrMultipleNotSpecified => 'o'
      case _ => 'v')
  {
    if e.ErrMalformedExpression? {
      assert Message(e) == "expression is malformed";
    } else if e.ErrMalformedField? {
      assert Message(e) == "unexpected field value";
    } else if e.ErrMultipleNotSpecified? {
      assert Message(e) == "only one `?` is supported";
    } else {
      assert Message(e) == "values are outside the supported range";
    }
  }

  /**
   * A wrapped error's message names its kind and ends with the inner
   * message: two wrapped errors with the same message have the same kind
   * and inner messages.
   */
  lemma MessageDeterminesKind(i1: Error, k1: TimeUnitKind, i2: Error, k2: TimeUnitKind)
    requires 0 <= k1 < 7 && 0 <= k2 < 7
    requires Printable(i1) && Printable(i2)
    requires Message(TimeUnitError(i1, k1)) == Message(TimeUnitError(i2, k2))
    ensures k1 == k2 && Message(i1) == Message(i2)
  {
    WrappedMessage(i1, k1);
    WrappedMessage(i2, k2);
    KindInitials(k1);
    KindInitials(k2);
    assert Initials(k1) == Initials(k2);
    InitialsInjective(k1, k2);
    var p := "time unit `" + KindString(k1) + "` malformed: ";
    PrefixCancel(p, Message(i1), Message(i2));
  }

  lemma InitialsInjective(j: TimeUnitKind, k: TimeUnitKind)
    requires 0 <= j < 7 && 0 <= k < 7 && Initials(j) == Initials(k)
    ensures j == k
  {
  }

  lemma PrefixCancel(p: string, a: string, b: string)
    requires p + a == p + b
    ensures a == b
  {
    assert a == (p + a)[|p|..];
    assert b == (p + b)[|p|..];
  }

  /** Characters 11 and 12 of a wrapped error's message are the first two of its kind's name. */
  lemma WrappedMessage(inner: Error, kind: TimeUnitKind)
    requires 0 <= kind < 7 && Printable(inner)
    ensures var m := Message(TimeUnitError(inner, kind));
      && |m| > 12 && m[11] == KindString(kind)[0] && m[12] == KindString(kind)[1]
  {
    KindInitials(kind);
    var head := "time unit `";
    assert |head| == 11;
  }

  /**
   * `errors.Is(err, target)`: err equals target, or err is a `TimeUnitError`
   * whose `Is` method accepts target. No modelled error unwraps further.
   */
  function Is(err: Error, target: Error): bool
    decreases err, 1
  {
    err == target || (err.TimeUnitError? && TimeUnitIs(err, target))
  }

  /**
   * `TimeUnitError.Is`: against another `TimeUnitError`, the kinds must agree
   * and the inner errors match; against anything else, the inner error decides.
   */
  function TimeUnitIs(e: Error, target: Error): bool
    requires e.TimeUnitError?
    decreases e, 0
  {
    if target.TimeUnitError? then target.kind == e.kind && Is(e.inner, target.inner)
    else Is(e.inner, target)
  }

  /** A wrapped error still matches whatever non-wrapped error its inner error matches. */
  lemma IsThroughWrap(inner: Error, kind: TimeUnitKind, target: Error)
    requires !target.TimeUnitError?
    ensures Is(TimeUnitError(inner, kind), target) <==> Is(inner, target)
  {
  }

  /** Two wrapped errors match exactly when their kinds agree and their inner errors match. */
  lemma IsBetweenWraps(i1: Error, k1: TimeUnitKind, i2: Error, k2: TimeUnitKind)
    ensures Is(TimeUnitError(i1, k1), TimeUnitError(i2, k2)) <==> k1 == k2 && Is(i1, i2)
  {
  }

  /** A sentinel only matches itself. */
  lemma SentinelIs(a: Error, b: Error)
    requires IsSentinel(a)
    ensures Is(a, b) <==> a == b
  {
  }
}

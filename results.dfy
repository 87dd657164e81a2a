/**
 * Lists of results gathered in order, stopping at the first error: the
 * shape of every parsing loop of the cron parser.
 */
module Results {
  import opened Wrappers

  /** The Ok result of a list whose first elements are already known. */
  function Prefixed<T, E>(done: seq<T>, r: Result<seq<T>, E>): Result<seq<T>, E> {
    match r
    case Ok(rest) => Ok(done + rest)
    case Err(e) => Err(e)
  }

  /** Every value of a list of results, or the first error among them. */
  function Collect<T, E>(rs: seq<Result<T, E>>): Result<seq<T>, E>
    decreases |rs|
  {
    if |rs| == 0 then Ok([])
    else
      match rs[0]
      case Err(e) => Err(e)
      case Ok(v) => Prefixed([v], Collect(rs[1..]))
  }

  /** A list collects to Ok exactly when every result is Ok, and then to their values in order. */
  lemma {:induction false} CollectOk<T, E>(rs: seq<Result<T, E>>)
    ensures Collect(rs).Ok? <==> forall i :: 0 <= i < |rs| ==> rs[i].Ok?
    ensures Collect(rs).Ok? ==>
      |Collect(rs).value| == |rs| && forall i :: 0 <= i < |rs| ==> rs[i] == Ok(Collect(rs).value[i])
    decreases |rs|
  {
    if |rs| > 0 {
      var rest := rs[1..];
      CollectOk(rest);
      assert forall i :: 0 < i < |rs| ==> rs[i] == rest[i - 1];
      if rs[0].Ok? && Collect(rest).Ok? {
        var v := [rs[0].value] + Collect(rest).value;
        assert Collect(rs) == Ok(v);
        assert forall i :: 0 < i < |rs| ==> v[i] == Collect(rest).value[i - 1];
      }
    }
  }

  /** A list that collects to an error holds that error, after nothing but Ok results. */
  lemma {:induction false} CollectErr<T, E>(rs: seq<Result<T, E>>)
    ensures Collect(rs).Err? ==>
      exists i :: 0 <= i < |rs| && rs[i] == Err(Collect(rs).error) && forall j :: 0 <= j < i ==> rs[j].Ok?
    decreases |rs|
  {
    if |rs| > 0 && rs[0].Ok? {
      var rest := rs[1..];
      CollectErr(rest);
      if Collect(rest).Err? {
        var i :| 0 <= i < |rest| && rest[i] == Err(Collect(rest).error) && forall j :: 0 <= j < i ==> rest[j].Ok?;
        assert rs[i + 1] == rest[i];
        assert forall j :: 0 < j < i + 1 ==> rs[j] == rest[j - 1];
      }
    }
  }

  /** Collecting from position i: the i-th result, then the rest. */
  lemma CollectStep<T, E>(rs: seq<Result<T, E>>, i: nat)
    requires i < |rs|
    ensures Collect(rs[i..]) ==
      match rs[i]
      case Err(e) => Err(e)
      case Ok(v) => Prefixed([v], Collect(rs[i + 1..]))
  {
    assert rs[i..][1..] == rs[i + 1..];
  }

  lemma PrefixedAppend<T, E>(a: seq<T>, b: seq<T>, r: Result<seq<T>, E>)
    ensures Prefixed(a, Prefixed(b, r)) == Prefixed(a + b, r)
  {
    if r.Ok? {
      assert a + (b + r.value) == (a + b) + r.value;
    }
  }

  lemma PrefixedEmpty<T, E>(r: Result<seq<T>, E>)
    ensures Prefixed([], r) == r
  {
    if r.Ok? {
      assert [] + r.value == r.value;
    }
  }
}

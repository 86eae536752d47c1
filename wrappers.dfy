/** Optional values and the outcome of a call that may raise a Python exception. */
module Wrappers {

  /** Python's `None` or a present value. */
  datatype Option<+T> = None | Some(value: T)

  /** The Python exceptions the walkers can raise on an already-parsed tree. */
  datatype PyError =
    | KeyError(key: string)
    | UnboundLocalError(name: string)
    | TypeError(message: string)

  /** A call that returns normally with `value` or aborts with `error`. */
  datatype Result<+T> = Ok(value: T) | Err(error: PyError)

  /**
   * A loop that produces one outcome per item and stops at the first
   * exception: every value in order, or the first error.
   */
  function Sequence<T>(results: seq<Result<T>>): (r: Result<seq<T>>)
    ensures r.Ok? <==> forall i :: 0 <= i < |results| ==> results[i].Ok?
    ensures r.Ok? ==> |r.value| == |results|
    ensures r.Ok? ==> forall i :: 0 <= i < |results| ==> results[i] == Ok(r.value[i])
  {
    if results == [] then Ok([])
    else
      var n := |results| - 1;
      assert forall i :: 0 <= i < n ==> results[..n][i] == results[i];
      match Sequence(results[..n])
      case Err(e) => Err(e)
      case Ok(values) =>
        match results[n]
        case Err(e) => Err(e)
        case Ok(v) => Ok(values + [v])
  }

  /** One more item extends a successful loop by its value, or aborts it with its error. */
  lemma SequenceStep<T>(results: seq<Result<T>>, last: Result<T>)
    ensures Sequence(results + [last]) ==
              match Sequence(results)
              case Err(e) => Err(e)
              case Ok(values) =>
                match last
                case Err(e) => Err(e)
                case Ok(v) => Ok(values + [v])
  {
    assert (results + [last])[..|results|] == results;
  }

  /** The error reported is that of the first failing item. */
  lemma {:induction false} FirstErrorReported<T>(results: seq<Result<T>>, i: nat)
    requires i < |results| && results[i].Err?
    requires forall j :: 0 <= j < i ==> results[j].Ok?
    ensures Sequence(results) == Err(results[i].error)
  {
    var n := |results| - 1;
    assert forall j :: 0 <= j < n ==> results[..n][j] == results[j];
    if i < n {
      FirstErrorReported(results[..n], i);
    }
  }

  /** Once a prefix has failed, nothing after it changes the outcome. */
  lemma {:induction false} PrefixErrorStands<T>(results: seq<Result<T>>, k: nat)
    requires k <= |results|
    requires Sequence(results[..k]).Err?
    ensures Sequence(results) == Sequence(results[..k])
  {
    if k < |results| {
      var n := |results| - 1;
      assert results[..n][..k] == results[..k];
      PrefixErrorStands(results[..n], k);
    } else {
      assert results[..k] == results;
    }
  }
}

/** Failure-carrying datatypes used across the model: an optional value and a
    success-or-error result, standing in for Python's `None` and raised exceptions. */
module Wrappers {

  datatype Option<+T> = None | Some(value: T) {

    /** The wrapped value, or `default` when there is none (Python's `dict.get(k, default)`). */
    function GetOr(default: T): T {
      match this
      case Some(v) => v
      case None => default
    }
  }

  datatype Result<+R, +E> = Success(value: R) | Failure(error: E)

  /** `[x[k] for x in xs]` over values that may lack the key `k`: every value,
      in order, or None (the `KeyError`) when any one is missing. */
  function AllPresent<T>(xs: seq<Option<T>>): (r: Option<seq<T>>)
    ensures r.Some? <==> forall i :: 0 <= i < |xs| ==> xs[i].Some?
    ensures r.Some? ==> |r.value| == |xs| && forall i :: 0 <= i < |xs| ==> r.value[i] == xs[i].value
  {
    if |xs| == 0 then Some([])
    else
      match AllPresent(xs[1..])
      case None => None
      case Some(rest) =>
        if xs[0].None? then None else Some([xs[0].value] + rest)
  }
}

/** Optional values and success/failure results, used for Python's None and for raised exceptions. */
module Wrappers {

  datatype Option<+T> = None | Some(value: T) {
    function GetOr(default: T): T {
      match this
      case Some(v) => v
      case None => default
    }
  }

  /** Ok carries a value; Err carries the message of the exception the source would raise. */
  datatype Result<+T> = Ok(value: T) | Err(message: string)

  /** The first failure among `outs` from `i` on, if any: a loop over results that stops at
      the first raised exception. */
  function FirstFailure<T>(outs: seq<Result<T>>, i: nat): (f: Option<nat>)
    requires i <= |outs|
    ensures f.None? ==> forall k :: i <= k < |outs| ==> outs[k].Ok?
    ensures f.Some? ==> i <= f.value < |outs| && outs[f.value].Err? && forall k :: i <= k < f.value ==> outs[k].Ok?
    decreases |outs| - i
  {
    if i == |outs| then None
    else if outs[i].Err? then Some(i)
    else FirstFailure(outs, i + 1)
  }
}

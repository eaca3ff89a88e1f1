/** Option and Result values standing in for Python's `None` and raised exceptions. */
module Wrappers {

  datatype Option<T> = None | Some(value: T)

  datatype Result<T, E> = Ok(value: T) | Err(error: E)

  /**
   * Runs a sequence of steps that may raise, left to right, as a Python loop or
   * comprehension does: every value when no step raises, else the first error.
   */
  function Collect<T, E>(rs: seq<Result<T, E>>): (r: Result<seq<T>, E>)
    ensures r.Ok? <==> forall i :: 0 <= i < |rs| ==> rs[i].Ok?
    ensures r.Ok? ==> |r.value| == |rs| && forall i :: 0 <= i < |rs| ==> rs[i] == Ok(r.value[i])
    ensures r.Err? ==> exists i :: 0 <= i < |rs| && rs[i] == Err(r.error) && forall j :: 0 <= j < i ==> rs[j].Ok?
  {
    if rs == [] then Ok([])
    else
      var tail := rs[1..];
      assert forall i :: 1 <= i < |rs| ==> rs[i] == tail[i - 1];
      match rs[0]
      case Err(e) => Err(e)
      case Ok(first) =>
        match Collect(tail)
        case Err(e) =>
          ghost var i :| 0 <= i < |tail| && tail[i] == Err(e) && forall j :: 0 <= j < i ==> tail[j].Ok?;
          assert rs[i + 1] == Err(e);
          Err(e)
        case Ok(rest) => Ok([first] + rest)
  }
}

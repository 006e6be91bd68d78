/** Option and Result values standing in for Python's `None` and for the
    exceptions the modelled code can raise. */
module Wrappers {

  datatype Option<+T> = None | Some(value: T)

  datatype Result<+R, +E> = Success(value: R) | Failure(error: E)

  /** Runs through `rs` in order, the way a loop whose steps may raise
      does: the first failure is the outcome, and only when every step
      succeeds are all the values collected. */
  function AllSuccess<R, E>(rs: seq<Result<R, E>>): (r: Result<seq<R>, E>)
    ensures r.Failure? <==> exists i :: 0 <= i < |rs| && rs[i].Failure?
    ensures r.Success? ==> |r.value| == |rs| && forall i :: 0 <= i < |rs| ==> rs[i] == Success(r.value[i])
    ensures r.Failure? ==> exists i :: 0 <= i < |rs| && rs[i] == Failure(r.error)
                                       && forall j :: 0 <= j < i ==> rs[j].Success?
    decreases |rs|
  {
    if |rs| == 0 then Success([])
    else
      match rs[0]
      case Failure(e) => Failure(e)
      case Success(first) =>
        var tail := rs[1..];
        match AllSuccess(tail)
        case Failure(e) =>
          assert exists k :: 0 <= k < |rs| && rs[k] == Failure(e) && forall j :: 0 <= j < k ==> rs[j].Success? by {
            var i :| 0 <= i < |tail| && tail[i] == Failure(e) && forall j :: 0 <= j < i ==> tail[j].Success?;
            assert rs[i + 1] == tail[i];
            assert forall j :: 1 <= j < i + 1 ==> rs[j] == tail[j - 1];
          }
          Failure(e)
        case Success(rest) =>
          assert forall i :: 1 <= i < |rs| ==> rs[i] == tail[i - 1];
          Success([first] + rest)
  }
}

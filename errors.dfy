/** Outcomes of the extraction pipeline: a value, or the exception that aborts the request. */
module Errors {

  /** The exceptions the extraction code can raise. */
  datatype Error =
    | TypeError            // a property write on a string primitive, or a read of `.events` on `undefined`
    | SelectorSyntaxError  // the selector engine rejects a selector string

  datatype Result<+T> = Success(value: T) | Failure(error: Error)

  datatype Option<+T> = None | Some(value: T)

  /** `xs.map(f)` where `f` may throw: `f` on every element in order, and the first throw
      ends the whole call. */
  function MapResult<A, B>(xs: seq<A>, f: A -> Result<B>): (r: Result<seq<B>>)
    ensures r.Success? <==> forall i :: 0 <= i < |xs| ==> f(xs[i]).Success?
    ensures r.Success? ==> |r.value| == |xs| && forall i :: 0 <= i < |xs| ==> r.value[i] == f(xs[i]).value
    ensures r.Failure? ==> exists i :: 0 <= i < |xs| && f(xs[i]) == Failure(r.error)
  {
    if xs == [] then Success([])
    else
      match f(xs[0])
      case Failure(err) => Failure(err)
      case Success(v) =>
        match MapResult(xs[1..], f)
        case Failure(err) => Failure(err)
        case Success(vs) => Success([v] + vs)
  }
}

/** Failure-compatible carriers used for the Python code's `None` returns and
    raised exceptions. */
module Wrappers {

  datatype Option<+T> = None | Some(value: T) {

    predicate IsFailure() {
      None?
    }

    function PropagateFailure<U>(): Option<U>
      requires None?
    {
      None
    }

    function Extract(): T
      requires Some?
    {
      value
    }

    function GetOr(default: T): T {
      match this
      case Some(v) => v
      case None => default
    }
  }

  /** Either a computed value or the exception the source would raise. */
  datatype Result<+R, +E> = Success(value: R) | Failure(error: E) {

    predicate IsFailure() {
      Failure?
    }

    function PropagateFailure<U>(): Result<U, E>
      requires Failure?
    {
      Failure(error)
    }

    function Extract(): R
      requires Success?
    {
      value
    }
  }

  /** A Python loop that appends `f(x)` for each `x` in order and lets the
      first exception out. */
  function Collect<T, U, E>(xs: seq<T>, f: T -> Result<U, E>): (r: Result<seq<U>, E>)
    ensures r.Success? <==> forall k :: 0 <= k < |xs| ==> f(xs[k]).Success?
    ensures r.Success? ==> |r.value| == |xs|
    ensures r.Failure? ==> exists k :: 0 <= k < |xs| && f(xs[k]).Failure? && r.error == f(xs[k]).error
                                       && forall j :: 0 <= j < k ==> f(xs[j]).Success?
    decreases |xs|
  {
    if xs == [] then Success([])
    else
      match f(xs[0])
      case Failure(e) => Failure(e)
      case Success(y) =>
        assert forall k :: 1 <= k < |xs| ==> xs[k] == xs[1..][k - 1];
        match Collect(xs[1..], f)
        case Failure(e) => Failure(e)
        case Success(ys) => Success([y] + ys)
  }

  /** Element k of a successful collection is the value of `f(xs[k])`. */
  lemma {:induction false} CollectAt<T, U, E>(xs: seq<T>, f: T -> Result<U, E>)
    requires Collect(xs, f).Success?
    ensures forall k :: 0 <= k < |xs| ==> Collect(xs, f).value[k] == f(xs[k]).value
    decreases |xs|
  {
    if xs != [] {
      var tail := xs[1..];
      CollectAt(tail, f);
      var ys := Collect(xs, f).value;
      var rest := Collect(tail, f).value;
      assert ys == [f(xs[0]).value] + rest;
      forall k | 1 <= k < |xs| ensures ys[k] == f(xs[k]).value {
        assert ys[k] == rest[k - 1];
        assert xs[k] == tail[k - 1];
      }
    }
  }
}

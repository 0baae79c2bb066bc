/** Failure-carrying wrappers shared by the whole model. */
module Wrappers {

  /** A value that may be absent: Python's `None` versus a present value. */
  datatype Option<+T> = None | Some(value: T)

  /** The outcome of a Python call that either returns a value or raises.
      Usable with `:-`, which propagates the raised exception. */
  datatype Result<+R, +E> = Success(value: R) | Failure(error: E) {
    predicate IsFailure() {
      Failure?
    }

    function PropagateFailure<U>(): Result<U, E>
      requires Failure?
    {
      Failure(error)
    }

    function Extract(): R
      requires Success?
    {
      value
    }
  }

  /** The outcome of a Python call that returns nothing useful or raises. */
  datatype Outcome<+E> = Pass | Fail(error: E)

  /** A Python `for` loop that applies `f` to each element in turn and
      collects the results, stopping at the first exception. */
  function MapResult<A, B, E>(f: A -> Result<B, E>, xs: seq<A>): (r: Result<seq<B>, E>)
    ensures r.Success? <==> forall i :: 0 <= i < |xs| ==> f(xs[i]).Success?
    ensures r.Success? ==> |r.value| == |xs|
    ensures r.Success? ==> forall i :: 0 <= i < |xs| ==> f(xs[i]) == Success(r.value[i])
  {
    if |xs| == 0 then Success([])
    else
      var head := f(xs[0]);
      if head.Failure? then Failure(head.error)
      else
        var rest := MapResult(f, xs[1..]);
        assert forall i :: 1 <= i < |xs| ==> xs[i] == xs[1..][i - 1];
        if rest.Failure? then Failure(rest.error)
        else Success([head.value] + rest.value)
  }

  /** The exception the loop raises is the one of the first element that
      raises. */
  lemma {:induction false} MapResultFirstFailure<A, B, E>(f: A -> Result<B, E>, xs: seq<A>, i: nat)
    requires i < |xs| && f(xs[i]).Failure?
    requires forall j :: 0 <= j < i ==> f(xs[j]).Success?
    ensures MapResult(f, xs) == Failure(f(xs[i]).error)
    decreases i
  {
    if i > 0 {
      assert xs[1..][i - 1] == xs[i];
      assert forall j :: 0 <= j < i - 1 ==> xs[1..][j] == xs[j + 1];
      MapResultFirstFailure(f, xs[1..], i - 1);
    }
  }

  /** The exception the loop raises is one that `f` raises on some element. */
  lemma {:induction false} MapResultRaisesFromElement<A, B, E>(f: A -> Result<B, E>, xs: seq<A>)
    requires MapResult(f, xs).Failure?
    ensures exists i :: 0 <= i < |xs| && f(xs[i]) == Failure(MapResult(f, xs).error)
  {
    if f(xs[0]).Success? {
      MapResultRaisesFromElement(f, xs[1..]);
      var i :| 0 <= i < |xs| - 1 && f(xs[1..][i]) == Failure(MapResult(f, xs[1..]).error);
      assert f(xs[i + 1]) == Failure(MapResult(f, xs).error);
    }
  }
}

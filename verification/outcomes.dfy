/** Optional values and results with an error, the two shapes Python's
    exceptions and `None` take in this model. */
module Outcomes {

  datatype Option<+T> = None | Some(value: T)

  /** `Err` stands for an exception that aborts the whole run. */
  datatype Result<+T, +E> = Ok(value: T) | Err(error: E) {

    predicate IsFailure() {
      Err?
    }

    function PropagateFailure<U>(): Result<U, E>
      requires Err?
    {
      Err(error)
    }

    function Extract(): T
      requires Ok?
    {
      value
    }
  }

  /** `f` applied to every element in order; the first error aborts. */
  function Traverse<A, B, E>(xs: seq<A>, f: A -> Result<B, E>): (r: Result<seq<B>, E>)
    ensures r.Ok? <==> forall i :: 0 <= i < |xs| ==> f(xs[i]).Ok?
    ensures r.Ok? ==> |r.value| == |xs| && forall i :: 0 <= i < |xs| ==> f(xs[i]) == Ok(r.value[i])
  {
    if xs == [] then Ok([])
    else
      match f(xs[0])
      case Err(e) => Err(e)
      case Ok(y) =>
        match Traverse(xs[1..], f)
        case Err(e) => Err(e)
        case Ok(ys) =>
          assert forall i :: 0 < i < |xs| ==> xs[i] == xs[1..][i - 1];
          Ok([y] + ys)
  }

  /** A failed traversal reports the error of its first failing element. */
  lemma {:induction false} TraverseError<A, B, E>(xs: seq<A>, f: A -> Result<B, E>)
    requires Traverse(xs, f).Err?
    ensures exists i: nat ::
              && i < |xs|
              && (forall j :: 0 <= j < i ==> f(xs[j]).Ok?)
              && f(xs[i]).Err?
              && Traverse(xs, f).error == f(xs[i]).error
  {
    if f(xs[0]).Ok? {
      TraverseError(xs[1..], f);
      var i: nat :| && i < |xs[1..]|
                    && (forall j :: 0 <= j < i ==> f(xs[1..][j]).Ok?)
                    && f(xs[1..][i]).Err?
                    && Traverse(xs[1..], f).error == f(xs[1..][i]).error;
      assert xs[i + 1] == xs[1..][i];
      assert forall j :: 0 < j < i + 1 ==> xs[j] == xs[1..][j - 1];
    }
  }
}

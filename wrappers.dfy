/** Results and optional values shared by every module of the model.
    A Python exception that the source lets escape is a `Failure` carrying
    the exception's class; `None` is `Option.None`. */
module Wrappers {

  datatype Option<T> = None | Some(value: T)

  /** The Python exception classes the modelled code can raise. */
  datatype Error = IndexError | KeyError | ValueError | AttributeError | FileNotFoundError

  datatype Result<T> = Success(value: T) | Failure(error: Error)

  /** The outcome of a procedure that returns nothing (Python's `None`). */
  datatype Outcome = Pass | Fail(error: Error)

  /** `prefix` followed by the value of a result, or the same failure: how a
      loop that grows its output with `+=` relates to the rest of the run. */
  function Prepend<T>(prefix: seq<T>, r: Result<seq<T>>): (p: Result<seq<T>>)
    ensures p.Failure? <==> r.Failure?
    ensures r.Failure? ==> p == r
    ensures r.Success? ==> p.value == prefix + r.value
  {
    match r
    case Success(s) => Success(prefix + s)
    case Failure(e) => Failure(e)
  }

  /** Concatenation regrouped. */
  lemma Reassociate<T>(a: seq<T>, b: seq<T>, c: seq<T>)
    ensures a + (b + c) == (a + b) + c
  {
  }

  lemma PrependTwice<T>(a: seq<T>, b: seq<T>, r: Result<seq<T>>)
    ensures Prepend(a, Prepend(b, r)) == Prepend(a + b, r)
    ensures Prepend([], r) == r
  {
    if r.Success? {
      assert a + (b + r.value) == (a + b) + r.value;
      assert [] + r.value == r.value;
    }
  }
}

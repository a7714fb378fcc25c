/** Failure-carrying result types used throughout the model: an absent JavaScript
    value (`undefined` / `null`) is `None`, a thrown `Error` is `Err(message)`. */
module Wrappers {

  datatype Option<+T> = None | Some(value: T) {
    function GetOr(default: T): T {
      match this
      case Some(v) => v
      case None => default
    }
  }

  datatype Result<+T> = Ok(value: T) | Err(error: string) {
    predicate IsFailure() {
      Err?
    }

    function PropagateFailure<U>(): Result<U>
      requires Err?
    {
      Err(error)
    }

    function Extract(): T
      requires Ok?
    {
      value
    }
  }

  /** An operation that either completes or throws with a message. */
  datatype Outcome = Pass | Fail(error: string)

  /** What a `catch` block receives: an `Error`, which carries a message, or
      any other thrown value. */
  datatype Thrown = ErrorThrown(message: string) | OtherThrown {
    /** `error instanceof Error ? error.message : fallback` */
    function Message(fallback: string): string {
      match this
      case ErrorThrown(m) => m
      case OtherThrown => fallback
    }
  }

  /** `prefix` followed by what `rest` computes, or the error `rest` raises. */
  function Then<T>(prefix: seq<T>, rest: Result<seq<T>>): Result<seq<T>> {
    match rest
    case Err(e) => Err(e)
    case Ok(r) => Ok(prefix + r)
  }

  lemma ThenEmpty<T>(rest: Result<seq<T>>)
    ensures Then([], rest) == rest
  {
    if rest.Ok? {
      assert [] + rest.value == rest.value;
    }
  }

  lemma ThenAssoc<T>(a: seq<T>, b: seq<T>, rest: Result<seq<T>>)
    ensures Then(a, Then(b, rest)) == Then(a + b, rest)
  {
    if rest.Ok? {
      assert a + (b + rest.value) == (a + b) + rest.value;
    }
  }
}

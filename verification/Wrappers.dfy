/** Option and Result: absent values, and the exceptions the source throws. */
module Wrappers {
  datatype Option<+T> = None | Some(value: T)

  datatype Result<+T, +E> = Ok(value: T) | Err(error: E) {
    predicate IsFailure() {
      Err?
    }

    function PropagateFailure<U>(): Result<U, E>
      requires Err?
    {
      Err(error)
    }

    function Extract(): T
      requires Ok?
    {
      value
    }
  }

  /** The outcome of a loop that has pushed the elements of done and has the rest still to do. */
  function After<T, E>(done: seq<T>, rest: Result<seq<T>, E>): Result<seq<T>, E> {
    if rest.Ok? then Ok(done + rest.value) else rest
  }

  lemma AfterNothing<T, E>(rest: Result<seq<T>, E>)
    ensures After([], rest) == rest
  {
    if rest.Ok? {
      assert [] + rest.value == rest.value;
    }
  }

  /** Pushing the next element moves it from the rest to what is done. */
  lemma AfterPush<T, E>(done: seq<T>, x: T, rest: Result<seq<T>, E>)
    ensures After(done, After([x], rest)) == After(done + [x], rest)
  {
    if rest.Ok? {
      assert done + ([x] + rest.value) == (done + [x]) + rest.value;
    }
  }
}

/** Calls that may stop on a panic. */
module Panics {
  import opened Results

  /** A call that returns a value, returns an error, or stops on a panic.  `:-` passes on the last two. */
  datatype Outcome<+T> = Done(value: T) | Failed | Panicked {

    predicate IsFailure() {
      !Done?
    }

    function PropagateFailure<U>(): (r: Outcome<U>)
      requires IsFailure()
    {
      if Failed? then Failed else Panicked
    }

    function Extract(): T
      requires !IsFailure()
    {
      value
    }
  }

  /** The `?` operator on a call that cannot panic. */
  function Try<T>(r: Result<T>): Outcome<T> {
    if r.Ok? then Done(r.value) else Failed
  }
}

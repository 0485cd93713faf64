/** How a call into the C code can end. */
module Outcomes {

  datatype Option<+T> = None | Some(value: T)

  /** Why a run of the program does not get past a statement. */
  datatype Stop =
    | AssertFailed  // an assert of the source aborts the process
    | OutOfBounds   // a read or write leaves the memory it is meant for
    | NullPointer   // a null pointer is dereferenced
    | WouldBlock    // recv is called with nothing left to arrive

  datatype Outcome<+T> = Done(value: T) | Stopped(reason: Stop) {

    predicate IsFailure() {
      Stopped?
    }

    function PropagateFailure<U>(): Outcome<U>
      requires Stopped?
    {
      Stopped(reason)
    }

    function Extract(): T
      requires Done?
    {
      value
    }
  }
}

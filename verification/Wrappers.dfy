/** Results the codec's functions and methods hand back; each is usable with `:-`, the counterpart of `?`. */
module Wrappers {

  /** A value, or the one failure that stands for every error of the original. */
  datatype Option<+T> = None | Some(value: T) {

    predicate IsFailure() {
      None?
    }

    function PropagateFailure<U>(): Option<U>
      requires None?
    {
      None
    }

    function Extract(): T
      requires Some?
    {
      value
    }
  }

  /** How an encoder that returns no value ended. */
  datatype Outcome = Pass | Failed {

    predicate IsFailure() {
      Failed?
    }

    function PropagateFailure(): Outcome
      requires Failed?
    {
      Failed
    }
  }
}

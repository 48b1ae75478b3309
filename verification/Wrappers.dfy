/** The failure type used throughout: None stands for an aborted transaction (a failed
    require!, unwrap, checked_* operation or integer overflow), which leaves no trace. */
module Wrappers {

  datatype Option<+T> = None | Some(value: T) {
    predicate IsFailure() { None? }

    function PropagateFailure<U>(): Option<U>
      requires None?
    {
      None
    }

    function Extract(): T
      requires Some?
    {
      value
    }
  }
}

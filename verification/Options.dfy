/** The result of code that may revert. */
module Options {

  datatype Option<+T> = None | Some(value: T) {
    predicate IsFailure() { None? }

    function PropagateFailure<U>(): (r: Option<U>)
      requires None?
    {
      None
    }

    function Extract(): (r: T)
      requires Some?
    {
      value
    }
  }

}

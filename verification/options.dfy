/** The outcome of a C++ call that may throw. Some(v) is a normal return of
    v; None stands for std::out_of_range or std::invalid_argument leaving the
    call, which none of the modelled functions catches. */
module Options {

  datatype Option<+T> = None | Some(value: T) {

    /** A thrown exception: the `:-` operator stops evaluation here. */
    predicate IsFailure() {
      None?
    }

    /** The exception keeps unwinding through a caller whose own result
        has type U. */
    function PropagateFailure<U>(): Option<U>
      requires None?
    {
      None
    }

    /** The returned value that `:-` binds on a normal return. */
    function Extract(): T
      requires Some?
    {
      value
    }
  }
}

/** A value that may be absent: a null reference, a failed lookup or parse, an empty optional. */
module Options {

  datatype Option<T> = None | Some(value: T) {
    predicate IsFailure() {
      None?
    }

    function PropagateFailure<U>(): Option<U>
      requires None?
    {
      None
    }

    function Extract(): T
      requires Some?
    {
      value
    }

    ghost function AsSet(): set<T> {
      if None? then {} else {value}
    }
  }
}

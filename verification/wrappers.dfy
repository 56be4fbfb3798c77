/** Option and the crash outcome used throughout the model. */
module Wrappers {

  datatype Option<+T> = None | Some(value: T) {
    /** `d.get(key, default)` for a key that maps to this option. */
    function GetOr(default: T): (r: T)
      ensures Some? ==> r == value
      ensures None? ==> r == default
    {
      if Some? then value else default
    }
  }

  /** The result of a Python operation that either returns a value or raises.
      `Crash` stands for an exception that nothing in the core catches. */
  datatype Outcome<+T> = Ok(value: T) | Crash {

    predicate IsFailure() {
      Crash?
    }

    function PropagateFailure<U>(): Outcome<U>
      requires Crash?
    {
      Crash
    }

    function Extract(): T
      requires Ok?
    {
      value
    }
  }
}

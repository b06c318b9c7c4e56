/** Small value wrappers shared by the launcher model. */
module Wrappers {

  /** An optional value: an unset environment entry, an absent option,
      or the NULL terminator of an argument vector. */
  datatype Option<+T> = None | Some(value: T) {

    /** This value when present, otherwise `other`. */
    function Or(other: Option<T>): Option<T>
    {
      if Some? then this else other
    }
  }
}
